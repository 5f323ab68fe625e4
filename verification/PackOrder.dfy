/** The order in which the literals for an object are packed. The source takes dependents to
    come before what they depend on; when that is so. */
module PackOrders {
  import opened ObjectPackers

  ghost predicate IsBefore(ls: seq<Literal>, v: Literal, u: Literal) {
    exists i, j :: 0 <= i < j < |ls| && ls[i] == v && ls[j] == u
  }

  /** Some literal comes after one that it depends on. */
  ghost predicate IsInverted(ls: seq<Literal>) {
    exists v, u :: IsBefore(ls, v, u) && v in u.dependencies
  }

  ghost predicate IsNeededForSome(l: Literal, ls: seq<Literal>, skip: set<Literal>) {
    exists r :: r in ls && IsNeeded(l, r, skip)
  }

  /** Two ways lead on from `w`: an earlier one to `v`, and only a later one to `u`, which
      depends on `v`. */
  ghost predicate IsCrossing(w: Literal, i: nat, u: Literal, v: Literal, skip: set<Literal>) {
    && i < |w.dependencies| && IsNeeded(v, w.dependencies[i], skip) && v in u.dependencies
    && u != w && IsNeeded(u, w, skip) && !IsNeededForSome(u, w.dependencies[..i + 1], skip)
  }

  ghost predicate HasCrossing(root: Literal, skip: set<Literal>) {
    exists w, i, u, v :: IsNeeded(w, root, skip) && IsCrossing(w, i, u, v, skip)
  }

  // ----- what is needed -----

  lemma {:induction false} NeededIsWithin(l: Literal, root: Literal, skip: set<Literal>)
    requires IsNeeded(l, root, skip)
    ensures (l == root || l < root) && l !in skip
    decreases root
  {
    if l != root {
      var d :| d in root.dependencies && IsNeeded(l, d, skip);
      NeededIsWithin(l, d, skip);
    }
  }

  lemma {:induction false} NeededFurther(l: Literal, mid: Literal, root: Literal, skip: set<Literal>)
    requires IsNeeded(mid, root, skip) && IsNeeded(l, mid, skip)
    ensures IsNeeded(l, root, skip)
    decreases root
  {
    if mid != root {
      var d :| d in root.dependencies && IsNeeded(mid, d, skip);
      NeededFurther(l, mid, d, skip);
    }
  }

  lemma NeededByWayOf(l: Literal, root: Literal, skip: set<Literal>)
    requires root !in skip
    ensures IsNeeded(l, root, skip) <==> l == root || IsNeededForSome(l, root.dependencies, skip)
  {
  }

  // ----- from an inversion to a crossing -----

  /** What has been packed before some literals are dealt with either takes all that it depends
      on or is still being dealt with itself, above all of them. */
  ghost predicate IsSettled(ls: seq<Literal>, skip: set<Literal>, packed: seq<Literal>) {
    && NoRepeats(packed) && (forall l :: l in packed ==> l !in skip)
    && forall x :: x in packed ==> TakesDependencies(x, skip, packed) || forall l :: l in ls ==> l < x
  }

  /** All that is needed for a literal that has been dealt with is packed. */
  lemma {:induction false} NeededIsPacked(l: Literal, x: Literal, first: Literal, skip: set<Literal>,
                                          packed: seq<Literal>)
    requires x in packed && IsNeeded(l, x, skip) && (x == first || x < first)
    requires forall p :: p in packed ==> TakesDependencies(p, skip, packed) || first < p
    ensures l in packed
    decreases x
  {
    if l != x {
      var d :| d in x.dependencies && IsNeeded(l, d, skip);
      NeededIsWithin(l, d, skip);
      assert IsTaken(d, skip, packed);
      NeededIsPacked(l, d, first, skip, packed);
    }
  }

  lemma DependenciesAreSettled(ls: seq<Literal>, skip: set<Literal>, packed: seq<Literal>)
    requires IsSettled(ls, skip, packed) && ls != [] && !IsTaken(ls[0], skip, packed)
    ensures IsSettled(ls[0].dependencies, skip, packed + [ls[0]])
  {
    var first := ls[0];
    forall x, d | x in packed + [first] && d in first.dependencies && !TakesDependencies(x, skip, packed + [first])
      ensures d < x
    {
      if x != first {
        assert !TakesDependencies(x, skip, packed);
        assert first in ls && first < x;
      }
    }
  }

  /** After the first literal has been dealt with, it is settled with respect to all of them. */
  lemma FirstIsSettled(ls: seq<Literal>, skip: set<Literal>, packed: seq<Literal>)
    returns (mid: seq<Literal>)
    requires IsSettled(ls, skip, packed) && ls != [] && !IsTaken(ls[0], skip, packed)
    ensures mid == Pack(ls[0].dependencies, skip, packed + [ls[0]])
    ensures IsSettled(ls, skip, mid) && packed + [ls[0]] <= mid
    ensures forall l :: l in mid && l !in packed ==> IsNeeded(l, ls[0], skip)
  {
    var first := ls[0];
    var more := packed + [first];
    mid := Pack(first.dependencies, skip, more);
    DependenciesAreSettled(ls, skip, packed);
    PackTakes(first.dependencies, skip, more);
    PrefixHas(packed, more);
    PrefixHas(more, mid);
    forall x | x in mid && !TakesDependencies(x, skip, mid)
      ensures forall l :: l in ls ==> l < x
    {
      assert x != first && x in more;
      assert !TakesDependencies(x, skip, packed);
    }
  }

  lemma TailIsSettled(ls: seq<Literal>, skip: set<Literal>, packed: seq<Literal>)
    requires IsSettled(ls, skip, packed) && ls != []
    ensures IsSettled(ls[1..], skip, packed)
  {
    assert forall l :: l in ls[1..] ==> l in ls;
  }

  /** Nothing else is needed for a literal that has been dealt with. */
  lemma NotNeededAnyMore(u: Literal, ls: seq<Literal>, skip: set<Literal>, packed: seq<Literal>)
    requires IsSettled(ls, skip, packed) && ls != [] && IsTaken(ls[0], skip, packed) && u !in packed
    ensures !IsNeeded(u, ls[0], skip)
  {
    var first := ls[0];
    if IsNeeded(u, first, skip) {
      NeededIsWithin(u, first, skip);
      assert first in ls && first in packed;
      NeededIsPacked(u, first, first, skip, packed);
    }
  }

  lemma BeforeInPrefix(mid: seq<Literal>, all: seq<Literal>, v: Literal, u: Literal)
    requires mid <= all && NoRepeats(all) && IsBefore(all, v, u) && u in mid
    ensures IsBefore(mid, v, u)
  {
    var i, j :| 0 <= i < j < |all| && all[i] == v && all[j] == u;
    var k :| 0 <= k < |mid| && mid[k] == u;
    assert all[k] == u;
    assert mid[i] == v;
  }

  /** Where an inversion comes from: a crossing below one of the literals, or an earlier one of
      them leading to `v` and only later ones to `u`. */
  ghost predicate IsExplained(ls: seq<Literal>, u: Literal, v: Literal, skip: set<Literal>) {
    || (exists w, i :: IsNeededForSome(w, ls, skip) && IsCrossing(w, i, u, v, skip))
    || (IsNeededForSome(u, ls, skip) && exists a :: LeadsOnlyLater(ls, a, u, v, skip))
  }

  ghost predicate LeadsOnlyLater(ls: seq<Literal>, a: nat, u: Literal, v: Literal, skip: set<Literal>) {
    a < |ls| && IsNeeded(v, ls[a], skip) && !IsNeededForSome(u, ls[..a + 1], skip)
  }

  lemma {:induction false} InversionIsExplained(ls: seq<Literal>, skip: set<Literal>, packed: seq<Literal>,
                                                v: Literal, u: Literal)
    requires IsSettled(ls, skip, packed) && IsBefore(Pack(ls, skip, packed), v, u) && v in u.dependencies
    requires v !in packed && u !in packed
    ensures IsExplained(ls, u, v, skip)
    decreases ls, 1
  {
    hide IsSettled, IsExplained, IsBefore, IsNeeded;
    if ls == [] {
      NothingIsBefore(packed, v, u);
    } else if IsTaken(ls[0], skip, packed) {
      TailIsSettled(ls, skip, packed);
      InversionIsExplained(ls[1..], skip, packed, v, u);
      NotNeededAnyMore(u, ls, skip, packed);
      ExplainedByTail(ls, u, v, skip);
    } else {
      InversionAfterFirst(ls, skip, packed, v, u);
    }
  }

  lemma NothingIsBefore(packed: seq<Literal>, v: Literal, u: Literal)
    requires IsBefore(packed, v, u)
    ensures u in packed && v in packed
  {
  }

  lemma ExplainedByTail(ls: seq<Literal>, u: Literal, v: Literal, skip: set<Literal>)
    requires ls != [] && IsExplained(ls[1..], u, v, skip) && !IsNeeded(u, ls[0], skip)
    ensures IsExplained(ls, u, v, skip)
  {
    hide IsNeeded, IsCrossing;
    var tail := ls[1..];
    forall x | IsNeededForSome(x, tail, skip)
      ensures IsNeededForSome(x, ls, skip)
    {
      var r :| r in tail && IsNeeded(x, r, skip);
      assert r in ls;
    }
    if a: nat :| LeadsOnlyLater(tail, a, u, v, skip) {
      assert ls[..a + 2] == [ls[0]] + tail[..a + 1];
      assert LeadsOnlyLater(ls, a + 1, u, v, skip);
    }
  }

  lemma {:induction false} InversionAfterFirst(ls: seq<Literal>, skip: set<Literal>, packed: seq<Literal>,
                                               v: Literal, u: Literal)
    requires IsSettled(ls, skip, packed) && IsBefore(Pack(ls, skip, packed), v, u) && v in u.dependencies
    requires v !in packed && u !in packed && ls != [] && !IsTaken(ls[0], skip, packed)
    ensures IsExplained(ls, u, v, skip)
    decreases ls, 0
  {
    hide IsSettled, IsExplained, IsBefore, IsNeeded;
    var first := ls[0];
    var mid := FirstIsSettled(ls, skip, packed);
    var all := Pack(ls[1..], skip, mid);
    TailIsSettled(ls, skip, mid);
    AllIsWhole(ls[1..], skip, mid);
    NothingIsBefore(all, v, u);
    if u in mid {
      BeforeInPrefix(mid, all, v, u);
      if v == first || u == first {
        FirstIsFirst(ls, skip, packed, mid, v, u);
      }
      DependenciesAreSettled(ls, skip, packed);
      InversionIsExplained(first.dependencies, skip, packed + [first], v, u);
      ExplainedByFirst(ls, u, v, skip);
    } else {
      assert first in packed + [first];
      PrefixHas(packed + [first], mid);
      NotNeededAnyMore(u, ls, skip, mid);
      if v in mid {
        UpToLater(ls, skip, mid, v, u);
      } else {
        InversionIsExplained(ls[1..], skip, mid, v, u);
        ExplainedByTail(ls, u, v, skip);
      }
    }
  }

  lemma AllIsWhole(ls: seq<Literal>, skip: set<Literal>, packed: seq<Literal>)
    requires IsSettled(ls, skip, packed)
    ensures packed <= Pack(ls, skip, packed) && NoRepeats(Pack(ls, skip, packed))
    ensures forall l :: l in Pack(ls, skip, packed) && l !in packed ==> IsNeededForSome(l, ls, skip)
  {
    PackTakes(ls, skip, packed);
  }

  /** The first literal neither follows nor precedes, in the wrong order, what it is packed with. */
  lemma FirstIsFirst(ls: seq<Literal>, skip: set<Literal>, packed: seq<Literal>, mid: seq<Literal>, v: Literal,
                     u: Literal)
    requires ls != [] && packed + [ls[0]] <= mid && NoRepeats(mid) && IsBefore(mid, v, u) && v !in packed
    requires v in u.dependencies && IsNeeded(u, ls[0], skip)
    ensures v != ls[0] && u != ls[0]
  {
    NeededIsWithin(u, ls[0], skip);
    var i, j :| 0 <= i < j < |mid| && mid[i] == v && mid[j] == u;
    assert mid[|packed|] == ls[0];
    if u == ls[0] {
      assert false;
    }
  }

  lemma ExplainedByFirst(ls: seq<Literal>, u: Literal, v: Literal, skip: set<Literal>)
    requires ls != [] && ls[0] !in skip && IsExplained(ls[0].dependencies, u, v, skip)
    requires u != ls[0] && v in u.dependencies
    ensures IsExplained(ls, u, v, skip)
  {
    hide IsNeeded;
    var first := ls[0];
    assert IsNeeded(first, first, skip) by { NeededByWayOf(first, first, skip); }
    assert IsNeededForSome(first, ls, skip);
    if w, i :| IsNeededForSome(w, first.dependencies, skip) && IsCrossing(w, i, u, v, skip) {
      NeededByWayOf(w, first, skip);
      assert IsNeededForSome(w, ls, skip);
    } else {
      var a: nat :| LeadsOnlyLater(first.dependencies, a, u, v, skip);
      NeededByWayOf(u, first, skip);
      assert IsCrossing(first, a, u, v, skip);
    }
  }

  lemma UpToLater(ls: seq<Literal>, skip: set<Literal>, mid: seq<Literal>, v: Literal, u: Literal)
    requires ls != [] && IsNeeded(v, ls[0], skip) && !IsNeeded(u, ls[0], skip)
    requires IsNeededForSome(u, ls[1..], skip)
    ensures IsExplained(ls, u, v, skip)
  {
    hide IsNeeded, IsCrossing;
    var r :| r in ls[1..] && IsNeeded(u, r, skip);
    assert r in ls;
    assert ls[..0 + 1] == [ls[0]];
    assert LeadsOnlyLater(ls, 0, u, v, skip);
  }

  lemma InversionHasCrossing(root: Literal, skip: set<Literal>)
    requires IsInverted(Pack([root], skip, []))
    ensures HasCrossing(root, skip)
  {
    hide IsNeeded, IsCrossing, Pack;
    var v, u :| IsBefore(Pack([root], skip, []), v, u) && v in u.dependencies;
    InversionIsExplained([root], skip, [], v, u);
    if a: nat :| LeadsOnlyLater([root], a, u, v, skip) && IsNeededForSome(u, [root], skip) {
      assert false;
    }
    var w, i :| IsNeededForSome(w, [root], skip) && IsCrossing(w, i, u, v, skip);
    assert IsNeeded(w, root, skip);
  }

  // ----- from a crossing to an inversion -----

  lemma {:induction false} PackConcat(a: seq<Literal>, b: seq<Literal>, skip: set<Literal>, packed: seq<Literal>)
    ensures Pack(a + b, skip, packed) == Pack(b, skip, Pack(a, skip, packed))
    decreases |a|
  {
    if a == [] {
      assert a + b == b;
    } else {
      assert (a + b)[1..] == a[1..] + b;
      if IsTaken(a[0], skip, packed) {
        PackConcat(a[1..], b, skip, packed);
      } else {
        PackConcat(a[1..], b, skip, Pack(a[0].dependencies, skip, packed + [a[0]]));
      }
    }
  }

  ghost predicate IsClean(skip: set<Literal>, packed: seq<Literal>) {
    NoRepeats(packed) && forall l :: l in packed ==> l !in skip
  }

  lemma PackStaysClean(ls: seq<Literal>, skip: set<Literal>, packed: seq<Literal>)
    requires IsClean(skip, packed)
    ensures IsClean(skip, Pack(ls, skip, packed)) && packed <= Pack(ls, skip, packed)
  {
    PackTakes(ls, skip, packed);
  }

  lemma OneMoreIsClean(skip: set<Literal>, packed: seq<Literal>, l: Literal)
    requires IsClean(skip, packed) && !IsTaken(l, skip, packed)
    ensures IsClean(skip, packed + [l])
  {
  }

  /** What had been packed when the turn of `w` came, after which its dependencies were dealt with. */
  lemma {:induction false} PackedBefore(ls: seq<Literal>, skip: set<Literal>, packed: seq<Literal>, w: Literal)
    returns (before: seq<Literal>)
    requires IsClean(skip, packed) && w in Pack(ls, skip, packed) && w !in packed
    ensures IsClean(skip, before) && !IsTaken(w, skip, before)
    ensures Pack(w.dependencies, skip, before + [w]) <= Pack(ls, skip, packed)
    decreases ls
  {
    hide IsClean;
    if IsTaken(ls[0], skip, packed) {
      before := PackedBefore(ls[1..], skip, packed, w);
    } else {
      var first := ls[0];
      var mid := Pack(first.dependencies, skip, packed + [first]);
      OneMoreIsClean(skip, packed, first);
      PackStaysClean(first.dependencies, skip, packed + [first]);
      PackStaysClean(ls[1..], skip, mid);
      if w == first {
        before := packed;
      } else if w in mid {
        before := PackedBefore(first.dependencies, skip, packed + [first], w);
      } else {
        before := PackedBefore(ls[1..], skip, mid, w);
      }
    }
  }

  /** Without inversions nothing that `w` needs comes before it. */
  lemma {:induction false} NeededComesLater(all: seq<Literal>, before: seq<Literal>, x: Literal, y: Literal,
                                            skip: set<Literal>)
    requires !IsInverted(all) && NoRepeats(all) && before <= all && y in before && y !in skip
    requires IsNeeded(y, x, skip) && forall l :: IsNeeded(l, x, skip) ==> l in all
    ensures x in before
    decreases x
  {
    if x != y {
      var d :| d in x.dependencies && IsNeeded(y, d, skip);
      assert IsNeeded(d, d, skip);
      assert IsNeeded(d, x, skip) && IsNeeded(x, x, skip);
      forall l | IsNeeded(l, d, skip)
        ensures l in all
      {
        NeededFurther(l, d, x, skip);
      }
      NeededComesLater(all, before, d, y, skip);
      NotBefore(all, before, d, x);
    }
  }

  lemma LaterIsBefore(all: seq<Literal>, before: seq<Literal>, d: Literal, x: Literal)
    requires before <= all && d in before && x in all && x !in before
    ensures IsBefore(all, d, x)
  {
    var i :| 0 <= i < |before| && before[i] == d;
    var j :| 0 <= j < |all| && all[j] == x;
    assert all[i] == d;
    assert forall k :: 0 <= k < |before| ==> before[k] == all[k];
  }

  lemma NotBefore(all: seq<Literal>, before: seq<Literal>, d: Literal, x: Literal)
    requires !IsInverted(all) && before <= all && d in before && x in all && d in x.dependencies
    ensures x in before
  {
    if x !in before {
      LaterIsBefore(all, before, d, x);
      assert false;
    }
  }

  /** What is needed for a literal packed since then has been packed since then. */
  lemma {:induction false} NeededIsPackedSince(l: Literal, x: Literal, w: Literal, skip: set<Literal>,
                                               before: seq<Literal>, packed: seq<Literal>)
    requires x in packed && IsNeeded(l, x, skip) && IsNeeded(x, w, skip) && x != w
    requires forall y :: IsNeeded(y, w, skip) ==> y !in before
    requires forall y :: y in packed && y !in before + [w] ==> TakesDependencies(y, skip, packed)
    ensures l in packed
    decreases x
  {
    if l != x {
      var d :| d in x.dependencies && IsNeeded(l, d, skip);
      assert TakesDependencies(x, skip, packed);
      assert IsNeeded(d, d, skip);
      NeededFurther(d, x, w, skip);
      NeededIsWithin(x, w, skip);
      NeededIsPackedSince(l, d, w, skip, before, packed);
    }
  }

  /** When `w` is packed, the earlier way from it to `v` has been gone before `u` is come across. */
  lemma EarlierWayIsPacked(w: Literal, i: nat, u: Literal, v: Literal, skip: set<Literal>, before: seq<Literal>)
    returns (some: seq<Literal>)
    requires IsClean(skip, before) && !IsTaken(w, skip, before) && IsCrossing(w, i, u, v, skip)
    requires forall y :: IsNeeded(y, w, skip) ==> y !in before
    ensures some <= Pack(w.dependencies, skip, before + [w]) && v in some && u !in some
  {
    hide IsNeeded, IsClean, Pack;
    var ls, x := w.dependencies[..i + 1], w.dependencies[i];
    OneMoreIsClean(skip, before, w);
    some := Pack(ls, skip, before + [w]);
    assert w.dependencies == ls + w.dependencies[i + 1..];
    PackConcat(ls, w.dependencies[i + 1..], skip, before + [w]);
    PackStaysClean(ls, skip, before + [w]);
    PackStaysClean(w.dependencies[i + 1..], skip, some);
    SinceThen(ls, skip, before + [w]);
    FirstStep(v, x, w, skip);
    assert x == ls[i] && x in ls && IsTaken(x, skip, some);
    NeededIsPackedSince(v, x, w, skip, before, some);
  }

  lemma SinceThen(ls: seq<Literal>, skip: set<Literal>, packed: seq<Literal>)
    requires IsClean(skip, packed)
    ensures forall y :: y in Pack(ls, skip, packed) && y !in packed ==>
              TakesDependencies(y, skip, Pack(ls, skip, packed)) && IsNeededForSome(y, ls, skip)
    ensures forall l :: l in ls ==> IsTaken(l, skip, Pack(ls, skip, packed))
  {
    PackTakes(ls, skip, packed);
  }

  lemma FirstStep(v: Literal, x: Literal, w: Literal, skip: set<Literal>)
    requires IsNeeded(v, x, skip) && x in w.dependencies && w !in skip
    ensures IsNeeded(x, w, skip) && x != w && x !in skip
  {
    assert IsNeeded(x, x, skip);
  }

  lemma CrossingIsInverted(root: Literal, skip: set<Literal>)
    requires HasCrossing(root, skip)
    ensures IsInverted(Pack([root], skip, []))
  {
    hide IsNeeded, Pack, IsInverted;
    var w, i, u, v :| IsNeeded(w, root, skip) && IsCrossing(w, i, u, v, skip);
    var all := Pack([root], skip, []);
    PackIsExactlyNeeded(root, skip);
    var before := PackedBefore([root], skip, [], w);
    OneMoreIsClean(skip, before, w);
    PackStaysClean(w.dependencies, skip, before + [w]);
    if !IsInverted(all) {
      forall y | IsNeeded(y, w, skip)
        ensures y in all && y !in before
      {
        NothingNeededBefore(root, w, y, skip, all, before);
      }
      var some := EarlierWayIsPacked(w, i, u, v, skip, before);
      LaterIsBefore(all, some, v, u);
      InvertedBy(all, v, u);
    }
  }

  lemma InvertedBy(all: seq<Literal>, v: Literal, u: Literal)
    requires IsBefore(all, v, u) && v in u.dependencies
    ensures IsInverted(all)
  {
  }

  lemma NothingNeededBefore(root: Literal, w: Literal, y: Literal, skip: set<Literal>, all: seq<Literal>,
                            before: seq<Literal>)
    requires all == Pack([root], skip, []) && IsNeeded(w, root, skip) && IsNeeded(y, w, skip)
    requires !IsInverted(all) && before + [w] <= all && IsClean(skip, before) && !IsTaken(w, skip, before)
    ensures y in all && y !in before
  {
    hide IsNeeded, Pack, IsInverted;
    PackIsExactlyNeeded(root, skip);
    forall l | IsNeeded(l, w, skip)
      ensures l in all
    {
      NeededFurther(l, w, root, skip);
    }
    NeededIsWithin(y, w, skip);
    if y in before {
      NeededComesLater(all, before, w, y, skip);
      assert false;
    }
  }

  /** Some literal is packed after one that it depends on exactly if two ways cross like that. */
  lemma InvertedExactlyWhen(root: Literal, skip: set<Literal>)
    ensures IsInverted(Pack([root], skip, [])) <==> HasCrossing(root, skip)
  {
    if HasCrossing(root, skip) {
      CrossingIsInverted(root, skip);
    }
    if IsInverted(Pack([root], skip, [])) {
      InversionHasCrossing(root, skip);
    }
  }

  /** Nothing is needed by way of two dependencies of one literal. */
  ghost predicate IsTree(root: Literal, skip: set<Literal>) {
    forall w, i, k, l ::
      IsNeeded(w, root, skip) && 0 <= i < k < |w.dependencies| && IsNeeded(l, w.dependencies[i], skip) ==>
        !IsNeeded(l, w.dependencies[k], skip)
  }

  /** In a tree what depends on something always comes before it. */
  lemma TreesAreInOrder(root: Literal, skip: set<Literal>)
    requires IsTree(root, skip)
    ensures !IsInverted(Pack([root], skip, []))
  {
    hide IsNeeded, Pack, IsInverted;
    InvertedExactlyWhen(root, skip);
    forall w, i: nat, u, v | IsNeeded(w, root, skip) && IsCrossing(w, i, u, v, skip)
      ensures false
    {
      NeededIsWithin(w, root, skip);
      NeededByWayOf(u, w, skip);
      NeededIsWithin(u, w, skip);
      var r :| r in w.dependencies && IsNeeded(u, r, skip);
      var k :| 0 <= k < |w.dependencies| && w.dependencies[k] == r;
      assert k > i by { NotAmongEarlier(w, i, k, u, skip); }
      NeededIsWithin(v, w.dependencies[i], skip);
      OwnDependency(v, u, skip);
      NeededFurther(v, u, r, skip);
      assert false;
    }
  }

  lemma NotAmongEarlier(w: Literal, i: nat, k: nat, u: Literal, skip: set<Literal>)
    requires i < |w.dependencies| && k < |w.dependencies| && IsNeeded(u, w.dependencies[k], skip)
    requires !IsNeededForSome(u, w.dependencies[..i + 1], skip)
    ensures k > i
  {
    assert forall m :: 0 <= m <= i ==> w.dependencies[..i + 1][m] == w.dependencies[m];
  }

  lemma OwnDependency(d: Literal, l: Literal, skip: set<Literal>)
    requires d in l.dependencies && d !in skip && l !in skip
    ensures IsNeeded(d, l, skip)
  {
    assert IsNeeded(d, d, skip);
  }

  /** The smallest crossing: `a` comes after `b`, on which it depends. */
  lemma DependentMayComeLast() returns (a: Literal, b: Literal, root: Literal)
    ensures b in a.dependencies && Pack([root], {}, []) == [root, b, a] && HasCrossing(root, {})
  {
    b := Literal("b", []);
    a := Literal("a", [b]);
    root := Literal("root", [b, a]);
    assert Pack([], {}, [root, b]) == [root, b];
    assert Pack([b], {}, [root, b, a]) == [root, b, a] by {
      assert [b][0] in [root, b, a] && [b][1..] == [];
    }
    assert Pack([a], {}, [root, b]) == [root, b, a] by {
      assert [root, b] + [a] == [root, b, a] && [a][1..] == [];
    }
    assert Pack([b, a], {}, [root]) == [root, b, a] by {
      assert [b, a][1..] == [a] && [root] + [b] == [root, b];
    }
    assert [root][1..] == [] && [] + [root] == [root];
    assert IsBefore([root, b, a], b, a) by {
      assert [root, b, a][1] == b && [root, b, a][2] == a;
    }
    InversionHasCrossing(root, {});
  }
}
