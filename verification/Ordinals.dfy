/** Ordinals: strings over a-z that do not end in 'a', and a dense order on them. */
module Ordinals {
  import opened Hashing

  type Ordinal = string

  const MIN_CHAR := 'a'
  const MAX_CHAR := 'z'
  const MIDPOINT := 'm'

  ghost predicate IsLetter(c: char) {
    MIN_CHAR <= c <= MAX_CHAR
  }

  ghost predicate IsOrdinal(o: Ordinal) {
    && |o| > 0
    && (forall i :: 0 <= i < |o| ==> IsLetter(o[i]))
    && o[|o| - 1] != MIN_CHAR
  }

  /** Order of strings, character by character, a proper prefix first. */
  predicate Less(a: string, b: string) {
    b != [] && (a == [] || a[0] < b[0] || (a[0] == b[0] && Less(a[1..], b[1..])))
  }

  /** `a` and `b` first differ at `i`, where `a` ends or has the smaller character. */
  ghost predicate LessAt(a: string, b: string, i: nat) {
    && i <= |a| && i < |b| && a[..i] == b[..i]
    && (i == |a| || a[i] < b[i])
  }

  lemma {:induction false} LessWitness(a: string, b: string, i: nat)
    requires LessAt(a, b, i)
    ensures Less(a, b)
    decreases i
  {
    if i > 0 {
      assert a[..i][0] == a[0] && b[..i][0] == b[0];
      assert a[1..][..i - 1] == a[..i][1..] && b[1..][..i - 1] == b[..i][1..];
      LessWitness(a[1..], b[1..], i - 1);
    }
  }

  lemma {:induction false} LessTrichotomy(a: string, b: string)
    ensures Less(a, b) || a == b || Less(b, a)
    ensures !(Less(a, b) && Less(b, a)) && !Less(a, a)
    decreases |a|
  {
    if a != [] {
      LessTrichotomy(a[1..], a[1..]);
      if b != [] && a[0] == b[0] {
        LessTrichotomy(a[1..], b[1..]);
        assert a == [a[0]] + a[1..] && b == [b[0]] + b[1..];
      }
    }
  }

  lemma {:induction false} LessTransitive(a: string, b: string, c: string)
    requires Less(a, b) && Less(b, c)
    ensures Less(a, c)
    decreases |b|
  {
    if a != [] && a[0] == b[0] && b[0] == c[0] {
      LessTransitive(a[1..], b[1..], c[1..]);
    }
  }

  /** `o` lies strictly between the two bounds; an absent bound does not constrain it. */
  ghost predicate IsBetween(after: Option<Ordinal>, o: Ordinal, before: Option<Ordinal>) {
    (after.Some? ==> Less(after.value, o)) && (before.Some? ==> Less(o, before.value))
  }

  /** The character `delta` places further on. */
  function Shift(c: char, delta: int): (d: char)
    requires IsLetter(c) && MIN_CHAR as int <= c as int + delta <= MAX_CHAR as int
    ensures IsLetter(d) && d as int == c as int + delta
  {
    (c as int + delta) as char
  }

  function Text(o: Option<Ordinal>): string {
    if o.Some? then o.value else ""
  }

  ghost predicate AllMax(s: string) {
    forall j :: 0 <= j < |s| ==> s[j] == MAX_CHAR
  }

  /** While no character has been below its counterpart, the prefix copies both bounds:
      it runs on with 'a's after a short lower bound and with 'z's without an upper one. */
  ghost predicate EqualSoFar(after: Option<Ordinal>, before: Option<Ordinal>, i: nat, o: string) {
    var a, b := Text(after), Text(before);
    && |o| == i
    && (i <= |a| ==> o == a[..i])
    && (before.Some? ==> i <= |b| && o == b[..i])
    && (before.None? ==> i <= |a| && AllMax(o))
    && (i > |a| ==> before.Some? && o[..|a|] == a && forall j :: |a| <= j < i ==> o[j] == MIN_CHAR)
  }

  /** The lower bound has already been smaller at some place, so any extension of its
      prefix stays below the upper one. */
  ghost predicate SmallerSoFar(after: Option<Ordinal>, before: Option<Ordinal>, i: nat, o: string) {
    && after.Some? && before.Some? && i <= |after.value| && o == after.value[..i]
    && exists k :: 0 <= k < i && LessAt(after.value, before.value, k)
  }

  /** The upper bound went on with a 'b' where the lower one had ended. */
  ghost predicate SqueezedSoFar(after: Option<Ordinal>, before: Option<Ordinal>, i: nat, o: string) {
    var a := Text(after);
    && before.Some? && i < |before.value| && |a| <= i
    && o == before.value[..i] + [MIN_CHAR] && before.value[i] == Shift(MIN_CHAR, 1)
    && o[..|a|] == a
  }

  lemma ExtendSmaller(after: Option<Ordinal>, before: Option<Ordinal>, i: nat, o: string, c: char)
    requires SmallerSoFar(after, before, i, o)
    requires i < |after.value| ==> after.value[i] < c
    ensures IsBetween(after, o + [c], before)
  {
    var a, b := after.value, before.value;
    var k :| 0 <= k < i && LessAt(a, b, k);
    var r := o + [c];
    assert r[..i] == a[..i] && r[..k] == a[..i][..k] == a[..k];
    assert LessAt(a, r, i);
    assert r[k] == a[k];
    assert LessAt(r, b, k);
    LessWitness(a, r, i);
    LessWitness(r, b, k);
  }

  lemma ExtendEqual(after: Option<Ordinal>, before: Option<Ordinal>, i: nat, o: string, c: char)
    requires EqualSoFar(after, before, i, o)
    requires i < |Text(after)| ==> Text(after)[i] < c
    requires before.Some? ==> i < |before.value| && c < before.value[i]
    ensures IsBetween(after, o + [c], before)
  {
    var a := Text(after);
    var r := o + [c];
    if i <= |a| {
      assert r[..i] == a[..i];
      assert LessAt(a, r, i);
      LessWitness(a, r, i);
    } else {
      assert r[..|a|] == o[..|a|] == a;
      assert LessAt(a, r, |a|);
      LessWitness(a, r, |a|);
    }
    if before.Some? {
      assert r[..i] == before.value[..i];
      LessWitness(r, before.value, i);
    }
  }

  lemma ExtendSqueezed(after: Option<Ordinal>, before: Option<Ordinal>, i: nat, o: string, c: char)
    requires SqueezedSoFar(after, before, i, o)
    ensures IsBetween(after, o + [c], before)
  {
    var a, b := Text(after), before.value;
    var r := o + [c];
    assert r[..|a|] == o[..|a|] == a;
    LessWitness(a, r, |a|);
    assert r[..i] == b[..i] && r[i] == MIN_CHAR;
    LessWitness(r, b, i);
  }

  /** Both bounds exhausted without a difference: they are equal, or there is no upper one. */
  lemma BothExhausted(after: Option<Ordinal>, before: Option<Ordinal>, i: nat, o: string)
    requires ValidBounds(after, before) && EqualSoFar(after, before, i, o)
    requires i >= |Text(after)| && (before.Some? ==> i >= |before.value|)
    ensures before.Some? ==> after == before && o == before.value
    ensures before.None? ==> i == |Text(after)| && o == Text(after)
  {
    var a, b := Text(after), Text(before);
    if before.Some? {
      assert o == b[..i] == b;
      if i > |a| {
        assert false;
      }
      assert o == a[..i] == a;
    }
  }

  ghost predicate ValidBounds(after: Option<Ordinal>, before: Option<Ordinal>) {
    (after.Some? ==> IsOrdinal(after.value)) && (before.Some? ==> IsOrdinal(before.value))
  }

  /** The state of the search between two characters. */
  ghost predicate Searching(after: Option<Ordinal>, before: Option<Ordinal>, i: nat, o: string, smallerPrefix: bool) {
    && ValidBounds(after, before)
    && (forall j :: 0 <= j < |o| ==> IsLetter(o[j]))
    && i <= Max(|Text(after)|, |Text(before)|)
    && if smallerPrefix then SmallerSoFar(after, before, i, o) || SqueezedSoFar(after, before, i, o)
       else EqualSoFar(after, before, i, o)
  }

  ghost predicate Found(after: Option<Ordinal>, before: Option<Ordinal>, o: string) {
    && IsOrdinal(o) && |o| <= Max(|Text(after)|, |Text(before)|) + 1
    && if after.Some? && after == before then o == after.value + [MIDPOINT] else IsBetween(after, o, before)
  }

  lemma CopyAfter(after: Option<Ordinal>, before: Option<Ordinal>, i: nat, o: string, smallerPrefix: bool)
    requires Searching(after, before, i, o, smallerPrefix) && i < |Text(after)|
    requires smallerPrefix || (i < |Text(before)| && Text(after)[i] <= Text(before)[i]) ||
             (before.None? && Text(after)[i] == MAX_CHAR)
    ensures var smaller := smallerPrefix || (i < |Text(before)| && Text(after)[i] < Text(before)[i]);
            Searching(after, before, i + 1, o + [Text(after)[i]], smaller)
  {
    var a, b := Text(after), Text(before);
    var next := o + [a[i]];
    if smallerPrefix {
      var k :| 0 <= k < i && LessAt(a, b, k);
      assert 0 <= k < i + 1;
      assert SmallerSoFar(after, before, i + 1, next);
    } else if i < |b| && a[i] < b[i] {
      assert LessAt(a, b, i);
      assert SmallerSoFar(after, before, i + 1, next);
    }
  }

  lemma CopyBefore(after: Option<Ordinal>, before: Option<Ordinal>, i: nat, o: string)
    requires Searching(after, before, i, o, false) && |Text(after)| <= i < |Text(before)|
    requires Text(before)[i] == MIN_CHAR
    ensures Searching(after, before, i + 1, o + [Text(before)[i]], false)
  {
    assert (o + [MIN_CHAR])[..|Text(after)|] == o[..|Text(after)|];
  }

  lemma BumpAfter(after: Option<Ordinal>, before: Option<Ordinal>, i: nat, o: string, smallerPrefix: bool)
    requires Searching(after, before, i, o, smallerPrefix) && i < |Text(after)| && Text(after)[i] < MAX_CHAR
    requires smallerPrefix || before.None? ||
             (i < |Text(before)| && Text(after)[i] as int + 1 < Text(before)[i] as int)
    ensures Found(after, before, o + [Shift(Text(after)[i], 1)])
  {
    if smallerPrefix {
      ExtendSmaller(after, before, i, o, Shift(Text(after)[i], 1));
    } else {
      ExtendEqual(after, before, i, o, Shift(Text(after)[i], 1));
    }
    FoundIsConsistent(after, before, o + [Shift(Text(after)[i], 1)]);
  }

  lemma FoundIsConsistent(after: Option<Ordinal>, before: Option<Ordinal>, o: string)
    requires IsBetween(after, o, before)
    ensures !(after.Some? && after == before)
  {
    if after.Some? && after == before {
      BetweenImpliesLess(after, o, before);
    }
  }

  lemma AddMidpoint(after: Option<Ordinal>, before: Option<Ordinal>, i: nat, o: string, smallerPrefix: bool)
    requires Searching(after, before, i, o, smallerPrefix) && |Text(after)| <= i
    requires smallerPrefix || |Text(before)| <= i
    ensures Found(after, before, o + [MIDPOINT])
  {
    if smallerPrefix {
      if SqueezedSoFar(after, before, i, o) {
        ExtendSqueezed(after, before, i, o, MIDPOINT);
      } else {
        ExtendSmaller(after, before, i, o, MIDPOINT);
      }
      FoundIsConsistent(after, before, o + [MIDPOINT]);
    } else {
      BothExhausted(after, before, i, o);
      if before.None? {
        ExtendEqual(after, before, i, o, MIDPOINT);
      }
    }
  }

  lemma LowerBefore(after: Option<Ordinal>, before: Option<Ordinal>, i: nat, o: string)
    requires Searching(after, before, i, o, false) && |Text(after)| <= i < |Text(before)|
    requires Text(before)[i] > MIN_CHAR
    ensures var c := Shift(Text(before)[i], -1);
            if c > MIN_CHAR then Found(after, before, o + [c]) else Searching(after, before, i, o + [c], true)
  {
    var c := Shift(Text(before)[i], -1);
    ExtendEqual(after, before, i, o, c);
    FoundIsConsistent(after, before, o + [c]);
    if c == MIN_CHAR {
      assert Text(before)[i] == Shift(MIN_CHAR, 1);
      assert (o + [c])[..|Text(after)|] == o[..|Text(after)|];
      assert SqueezedSoFar(after, before, i, o + [c]);
    }
  }

  lemma BetweenImpliesLess(after: Option<Ordinal>, o: string, before: Option<Ordinal>)
    requires IsBetween(after, o, before) && after.Some? && before.Some?
    ensures Less(after.value, before.value) && !Less(before.value, after.value) && after != before
  {
    LessTransitive(after.value, o, before.value);
    LessTrichotomy(after.value, before.value);
    LessTrichotomy(after.value, after.value);
  }

  lemma ReversedFound(after: Option<Ordinal>, before: Option<Ordinal>, i: nat, o: string)
    requires Searching(after, before, i, o, false) && before.Some? && i < |Text(after)|
    requires i < |before.value| ==> before.value[i] < after.value[i]
    ensures Reversed(after, before)
  {
    LessWitness(before.value, after.value, i);
  }

  lemma FoundIsOrdered(after: Option<Ordinal>, before: Option<Ordinal>, o: string)
    requires Found(after, before, o)
    ensures !Reversed(after, before)
    ensures IsBetween(after, o, before) <==> !(after.Some? && after == before)
  {
    if after.Some? && before.Some? {
      LessTrichotomy(after.value, before.value);
      if IsBetween(after, o, before) {
        BetweenImpliesLess(after, o, before);
      }
    }
  }

  /** Whether the bounds are in order, the way the source finds out: it fails exactly when
      both are given and the upper one is smaller. */
  ghost predicate Reversed(after: Option<Ordinal>, before: Option<Ordinal>) {
    after.Some? && before.Some? && Less(before.value, after.value)
  }

  ghost function Max(a: nat, b: nat): nat {
    if a < b then b else a
  }

  /** An ordinal between two others. `None` stands for the source's exception. When both
      bounds are the same ordinal the result extends it, and so is not between them. */
  method Between(after: Option<Ordinal>, before: Option<Ordinal>) returns (r: Option<Ordinal>)
    requires ValidBounds(after, before)
    ensures r.None? <==> Reversed(after, before)
    ensures r.Some? ==> IsOrdinal(r.value) && |r.value| <= Max(|Text(after)|, |Text(before)|) + 1
    ensures r.Some? ==> (IsBetween(after, r.value, before) <==> !(after.Some? && after == before))
    ensures after.Some? && after == before ==> r == Some(after.value + [MIDPOINT])
  {
    var a, b := Text(after), Text(before);
    var done := false;
    var smallerPrefix := false;
    var i := 0;
    var o: string := "";
    assert Searching(after, before, i, o, false);
    while !done
      invariant !done ==> Searching(after, before, i, o, smallerPrefix)
      invariant done ==> Found(after, before, o)
      decreases !done, Max(|a|, |b|) - i, !smallerPrefix
    {
      if i < |a| && i < |b| {
        if !smallerPrefix && a[i] > b[i] {
          ReversedFound(after, before, i, o);
          return None;
        }
        if (smallerPrefix && a[i] < MAX_CHAR) || a[i] as int + 1 < b[i] as int {
          BumpAfter(after, before, i, o, smallerPrefix);
          o := o + [Shift(a[i], 1)];
          done := true;
        } else {
          CopyAfter(after, before, i, o, smallerPrefix);
          if a[i] < b[i] {
            smallerPrefix := true;
          }
          o := o + [a[i]];
          i := i + 1;
        }
      } else if i < |a| {
        if before.Some? && !smallerPrefix {
          ReversedFound(after, before, i, o);
          return None;
        }
        if a[i] < MAX_CHAR {
          BumpAfter(after, before, i, o, smallerPrefix);
          o := o + [Shift(a[i], 1)];
          done := true;
        } else {
          CopyAfter(after, before, i, o, smallerPrefix);
          o := o + [a[i]];
          i := i + 1;
        }
      } else if i < |b| {
        if smallerPrefix {
          AddMidpoint(after, before, i, o, smallerPrefix);
          o := o + [MIDPOINT];
          done := true;
        } else if b[i] > MIN_CHAR {
          LowerBefore(after, before, i, o);
          o := o + [Shift(b[i], -1)];
          if b[i] as int - 1 > MIN_CHAR as int {
            done := true;
          } else {
            smallerPrefix := true;
          }
        } else {
          CopyBefore(after, before, i, o);
          o := o + [b[i]];
          i := i + 1;
        }
      } else {
        AddMidpoint(after, before, i, o, smallerPrefix);
        o := o + [MIDPOINT];
        done := true;
      }
    }
    FoundIsOrdered(after, before, o);
    r := Some(o);
  }
}
