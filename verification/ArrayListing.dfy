/** The contents of an ordinal-indexed array: its live entries, ordered by ordinal and then
    by element hash. A bag of entries has exactly one such listing. */
module ArrayListings {
  import opened Ordinals
  import opened ArrayMaps

  datatype Entry = Entry(ordinal: Ordinal, element: string)

  ghost predicate EntryLessEq(a: Entry, b: Entry) {
    || Less(a.ordinal, b.ordinal)
    || (a.ordinal == b.ordinal && (a.element == b.element || Less(a.element, b.element)))
  }

  lemma EntryOrder(a: Entry, b: Entry)
    ensures EntryLessEq(a, b) || EntryLessEq(b, a)
    ensures EntryLessEq(a, b) && EntryLessEq(b, a) ==> a == b
  {
    LessTrichotomy(a.ordinal, b.ordinal);
    LessEqTotal(a.element, b.element);
  }

  lemma EntryTransitive(a: Entry, b: Entry, c: Entry)
    requires EntryLessEq(a, b) && EntryLessEq(b, c)
    ensures EntryLessEq(a, c)
  {
    if Less(a.ordinal, b.ordinal) && Less(b.ordinal, c.ordinal) {
      LessTransitive(a.ordinal, b.ordinal, c.ordinal);
    } else if a.ordinal == b.ordinal == c.ordinal {
      LessEqTransitive(a.element, b.element, c.element);
    }
  }

  ghost predicate Ordered(l: seq<Entry>) {
    forall i, j :: 0 <= i < j < |l| ==> EntryLessEq(l[i], l[j])
  }

  ghost predicate IsListing(l: seq<Entry>, bag: multiset<Entry>) {
    Ordered(l) && multiset(l) == bag
  }

  lemma FirstIsLeast(l: seq<Entry>, e: Entry)
    requires Ordered(l) && e in l
    ensures EntryLessEq(l[0], e)
  {
  }

  lemma EqualHeads(a: seq<Entry>, b: seq<Entry>)
    requires Ordered(a) && Ordered(b) && a != [] && b != [] && a[0] in b && b[0] in a
    ensures a[0] == b[0]
  {
    FirstIsLeast(b, a[0]);
    FirstIsLeast(a, b[0]);
    EntryOrder(a[0], b[0]);
  }

  lemma TailIsListing(l: seq<Entry>, bag: multiset<Entry>)
    requires IsListing(l, bag) && l != []
    ensures IsListing(l[1..], bag - multiset{l[0]})
  {
    hide EntryLessEq;
    assert l == [l[0]] + l[1..];
  }

  lemma {:induction false} ListingUnique(a: seq<Entry>, b: seq<Entry>, bag: multiset<Entry>)
    requires IsListing(a, bag) && IsListing(b, bag)
    ensures a == b
    decreases |a|
  {
    hide EntryLessEq, Ordered;
    assert |multiset(a)| == |a| && |multiset(b)| == |b|;
    if a != [] {
      assert a[0] in multiset(b) && b[0] in multiset(a);
      EqualHeads(a, b);
      TailIsListing(a, bag);
      TailIsListing(b, bag);
      ListingUnique(a[1..], b[1..], bag - multiset{a[0]});
      assert a == [a[0]] + a[1..] && b == [b[0]] + b[1..];
    }
  }

  /** Splicing entries in between two neighbours keeps the list ordered when the new ones
      are ordered themselves and lie between these neighbours. */
  lemma SpliceIn(l: seq<Entry>, idx: nat, news: seq<Entry>)
    requires idx <= |l| && Ordered(l) && Ordered(news)
    requires forall e :: e in news ==>
               (idx > 0 ==> EntryLessEq(l[idx - 1], e)) && (idx < |l| ==> EntryLessEq(e, l[idx]))
    ensures IsListing(l[..idx] + news + l[idx..], multiset(l) + multiset(news))
  {
    hide EntryLessEq;
    var r := l[..idx] + news + l[idx..];
    forall e, i | e in news && 0 <= i < |l|
      ensures i < idx ==> EntryLessEq(l[i], e)
      ensures i >= idx ==> EntryLessEq(e, l[i])
    {
      if i < idx {
        if i < idx - 1 {
          EntryTransitive(l[i], l[idx - 1], e);
        }
      } else if i > idx {
        EntryTransitive(e, l[idx], l[i]);
      }
    }
    forall i, j | 0 <= i < j < |r|
      ensures EntryLessEq(r[i], r[j])
    {
      if i < idx <= j < idx + |news| {
        assert r[j] in news;
      } else if idx <= i < idx + |news| <= j {
        assert r[i] in news;
      }
    }
    assert l == l[..idx] + l[idx..];
  }

  lemma CutOut(l: seq<Entry>, lo: nat, hi: nat)
    requires lo <= hi <= |l| && Ordered(l)
    ensures IsListing(l[..lo] + l[hi..], multiset(l) - multiset(l[lo..hi]))
  {
    hide EntryLessEq;
    assert l == l[..lo] + l[lo..hi] + l[hi..];
  }

  // ----- arrays without duplicates -----

  ghost function ElementsOf(l: seq<Entry>): set<string> {
    if l == [] then {} else ElementsOf(l[..|l| - 1]) + {l[|l| - 1].element}
  }

  lemma {:induction false} InElementsOf(l: seq<Entry>, e: Entry)
    requires e in l
    ensures e.element in ElementsOf(l)
  {
    if e != l[|l| - 1] {
      assert l == l[..|l| - 1] + [l[|l| - 1]];
      InElementsOf(l[..|l| - 1], e);
    }
  }

  lemma {:induction false} FromElementsOf(l: seq<Entry>, x: string) returns (e: Entry)
    requires x in ElementsOf(l)
    ensures e in l && e.element == x
  {
    if l[|l| - 1].element == x {
      e := l[|l| - 1];
    } else {
      e := FromElementsOf(l[..|l| - 1], x);
    }
  }

  /** The first entry of every element. */
  ghost function FirstOnly(l: seq<Entry>): (r: seq<Entry>)
    ensures ElementsOf(r) == ElementsOf(l)
  {
    if l == [] then []
    else
      var last := l[|l| - 1];
      assert l == l[..|l| - 1] + [last];
      var r := FirstOnly(l[..|l| - 1]);
      assert (r + [last])[..|r|] == r;
      if last.element in ElementsOf(r) then r else r + [last]
  }

  ghost predicate DistinctElements(l: seq<Entry>) {
    forall i, j :: 0 <= i < j < |l| ==> l[i].element != l[j].element
  }

  /** Without duplicates every live element is listed once, at the smallest of its ordinals. */
  lemma {:induction false} FirstOnlyIsSmallest(l: seq<Entry>)
    requires Ordered(l)
    ensures DistinctElements(FirstOnly(l)) && Ordered(FirstOnly(l))
    ensures forall e :: e in FirstOnly(l) ==> IsSmallestFor(e, l)
  {
    hide EntryLessEq;
    if l != [] {
      var last, init := l[|l| - 1], l[..|l| - 1];
      assert l == init + [last];
      FirstOnlyIsSmallest(init);
      AppendUnfolds(init, last, {});
      var r := FirstOnly(init);
      forall e | e in r
        ensures IsSmallestFor(e, l) && EntryLessEq(e, last) && e.element in ElementsOf(init)
      {
        InElementsOf(init, e);
      }
      if last.element !in ElementsOf(init) {
        NewIsSmallest(init, last);
      }
    }
  }

  lemma NewIsSmallest(init: seq<Entry>, last: Entry)
    requires last.element !in ElementsOf(init)
    ensures IsSmallestFor(last, init + [last])
  {
  }

  /** `e` is in the list, and no entry of the same element comes before it. */
  ghost predicate IsSmallestFor(e: Entry, l: seq<Entry>) {
    e in l && forall f :: f in l && f.element == e.element ==> EntryLessEq(e, f)
  }

  ghost function Without(l: seq<Entry>, gone: set<string>): (r: seq<Entry>)
    ensures forall e :: e in r <==> e in l && e.element !in gone
  {
    if l == [] then []
    else
      var last := l[|l| - 1];
      assert l == l[..|l| - 1] + [last];
      var r := Without(l[..|l| - 1], gone);
      if last.element in gone then r else r + [last]
  }

  lemma {:induction false} WithoutCounts(l: seq<Entry>, gone: set<string>)
    ensures forall e :: multiset(Without(l, gone))[e] == if e.element in gone then 0 else multiset(l)[e]
  {
    if l != [] {
      assert l == l[..|l| - 1] + [l[|l| - 1]];
      WithoutCounts(l[..|l| - 1], gone);
    }
  }

  lemma WithoutHas(l: seq<Entry>, gone: set<string>, e: Entry)
    requires e in Without(l, gone)
    ensures e in l
  {
    WithoutCounts(l, gone);
    assert e in multiset(Without(l, gone)) && e in multiset(l);
  }

  lemma OneMoreInOrder(l: seq<Entry>, last: Entry)
    requires Ordered(l) && forall e :: e in l ==> EntryLessEq(e, last)
    ensures Ordered(l + [last])
  {
    hide EntryLessEq;
  }

  lemma LastIsGreatest(l: seq<Entry>, e: Entry)
    requires l != [] && Ordered(l) && e in l[..|l| - 1]
    ensures EntryLessEq(e, l[|l| - 1])
  {
    hide EntryLessEq;
  }

  lemma {:induction false} WithoutStaysOrdered(l: seq<Entry>, gone: set<string>)
    requires Ordered(l)
    ensures Ordered(Without(l, gone))
  {
    hide EntryLessEq;
    if l != [] {
      var init, last := l[..|l| - 1], l[|l| - 1];
      WithoutStaysOrdered(init, gone);
      forall e | e in Without(init, gone)
        ensures EntryLessEq(e, last)
      {
        WithoutHas(init, gone, e);
        LastIsGreatest(l, e);
      }
      OneMoreInOrder(Without(init, gone), last);
    }
  }

  lemma WithoutKeepsOrder(l: seq<Entry>, gone: set<string>)
    requires Ordered(l)
    ensures Ordered(Without(l, gone))
    ensures forall e :: multiset(Without(l, gone))[e] == if e.element in gone then 0 else multiset(l)[e]
  {
    hide EntryLessEq, Ordered;
    WithoutStaysOrdered(l, gone);
    WithoutCounts(l, gone);
  }

  lemma AppendUnfolds(l: seq<Entry>, e: Entry, gone: set<string>)
    ensures ElementsOf(l + [e]) == ElementsOf(l) + {e.element}
    ensures FirstOnly(l + [e]) == if e.element in ElementsOf(l) then FirstOnly(l) else FirstOnly(l) + [e]
    ensures Without(l + [e], gone) == if e.element in gone then Without(l, gone) else Without(l, gone) + [e]
  {
  }

  lemma {:induction false} ElementsWithout(l: seq<Entry>, gone: set<string>)
    ensures ElementsOf(Without(l, gone)) == ElementsOf(l) - gone
  {
    if l != [] {
      var init, last := l[..|l| - 1], l[|l| - 1];
      ElementsWithout(init, gone);
      AppendUnfolds(Without(init, gone), last, gone);
    }
  }

  /** Deleting elements and hiding repetitions can be done in either order. */
  lemma {:induction false} FirstOnlyWithout(l: seq<Entry>, gone: set<string>)
    ensures FirstOnly(Without(l, gone)) == Without(FirstOnly(l), gone)
  {
    if l != [] {
      var init, last := l[..|l| - 1], l[|l| - 1];
      assert l == init + [last];
      FirstOnlyWithout(init, gone);
      ElementsWithout(init, gone);
      AppendUnfolds(init, last, gone);
      AppendUnfolds(Without(init, gone), last, gone);
      AppendUnfolds(FirstOnly(init), last, gone);
    }
  }

  lemma {:induction false} WithoutConcat(a: seq<Entry>, b: seq<Entry>, gone: set<string>)
    ensures Without(a + b, gone) == Without(a, gone) + Without(b, gone)
  {
    if b == [] {
      assert a + b == a;
    } else {
      assert (a + b)[..|a + b| - 1] == a + b[..|b| - 1];
      WithoutConcat(a, b[..|b| - 1], gone);
    }
  }

  lemma {:induction false} WithoutNone(l: seq<Entry>, gone: set<string>)
    ensures (forall e :: e in l ==> e.element !in gone) ==> Without(l, gone) == l
    ensures (forall e :: e in l ==> e.element in gone) ==> Without(l, gone) == []
  {
    if l != [] {
      assert l == l[..|l| - 1] + [l[|l| - 1]];
      WithoutNone(l[..|l| - 1], gone);
    }
  }

  /** In a list of distinct elements, deleting the elements of a part cuts out the part. */
  lemma WithoutMiddle(left: seq<Entry>, middle: seq<Entry>, right: seq<Entry>)
    requires DistinctElements(left + middle + right)
    ensures Without(left + middle + right, ElementsOf(middle)) == left + right
  {
    hide Without, ElementsOf, DistinctElements;
    var gone := ElementsOf(middle);
    forall e | e in left || e in right
      ensures e.element !in gone
    {
      if e.element in gone {
        var f := FromElementsOf(middle, e.element);
        TwoPlaces(left, middle, right, e, f);
      }
    }
    forall e | e in middle
      ensures e.element in gone
    {
      InElementsOf(middle, e);
    }
    WithoutNone(left, gone);
    WithoutNone(middle, gone);
    WithoutNone(right, gone);
    WithoutConcat(left, middle, gone);
    WithoutConcat(left + middle, right, gone);
  }

  lemma TwoPlaces(left: seq<Entry>, middle: seq<Entry>, right: seq<Entry>, e: Entry, f: Entry)
    requires DistinctElements(left + middle + right)
    requires (e in left || e in right) && f in middle
    ensures e.element != f.element
  {
    var d := left + middle + right;
    var j :| 0 <= j < |middle| && middle[j] == f;
    assert d[|left| + j] == f;
    if e in left {
      var i :| 0 <= i < |left| && left[i] == e;
      assert d[i] == e;
    } else {
      var i :| 0 <= i < |right| && right[i] == e;
      assert d[|left| + |middle| + i] == e;
    }
  }

  // ----- moving elements -----

  /** What is left of entries added one after the other, each of which makes the older ones of
      its element go. */
  ghost function LastOf(added: seq<Entry>): seq<Entry> {
    if added == [] then []
    else Without(LastOf(added[..|added| - 1]), {added[|added| - 1].element}) + [added[|added| - 1]]
  }

  lemma {:induction false} LastOfAreAmong(added: seq<Entry>)
    ensures forall e :: e in LastOf(added) ==> e in added
    ensures forall e :: e in LastOf(added) ==> e.element in ElementsOf(added)
    ensures DistinctElements(LastOf(added)) && ElementsOf(LastOf(added)) == ElementsOf(added)
    decreases |added|
  {
    if added != [] {
      var init, last := added[..|added| - 1], added[|added| - 1];
      assert added == init + [last];
      LastOfAreAmong(init);
      OneMoreLastOf(init, last);
    }
  }

  lemma OneMoreLastOf(init: seq<Entry>, last: Entry)
    requires forall e :: e in LastOf(init) ==> e in init && e.element in ElementsOf(init)
    requires DistinctElements(LastOf(init)) && ElementsOf(LastOf(init)) == ElementsOf(init)
    ensures LastOf(init + [last]) == Without(LastOf(init), {last.element}) + [last]
    ensures ElementsOf(LastOf(init + [last])) == ElementsOf(init + [last])
    ensures DistinctElements(LastOf(init + [last]))
  {
    hide Without, DistinctElements;
    var kept := Without(LastOf(init), {last.element});
    assert (init + [last])[..|init|] == init;
    ElementsWithout(LastOf(init), {last.element});
    AppendUnfolds(kept, last, {});
    AppendUnfolds(init, last, {});
    WithoutStaysDistinct(LastOf(init), {last.element});
    OneMoreDistinct(kept, last);
  }

  lemma OneMoreDistinct(l: seq<Entry>, last: Entry)
    requires DistinctElements(l) && forall e :: e in l ==> e.element != last.element
    ensures DistinctElements(l + [last])
  {
  }

  lemma {:induction false} WithoutStaysDistinct(l: seq<Entry>, gone: set<string>)
    requires DistinctElements(l)
    ensures DistinctElements(Without(l, gone))
  {
    if l != [] {
      var init, last := l[..|l| - 1], l[|l| - 1];
      WithoutStaysDistinct(init, gone);
      forall e | e in Without(init, gone)
        ensures e.element != last.element
      {
        assert e in init;
      }
      OneMoreDistinct(Without(init, gone), last);
    }
  }

  lemma {:induction false} LastOfStaysOrdered(added: seq<Entry>)
    requires Ordered(added)
    ensures Ordered(LastOf(added))
    decreases |added|
  {
    hide EntryLessEq, Without;
    if added != [] {
      var init, last := added[..|added| - 1], added[|added| - 1];
      LastOfStaysOrdered(init);
      LastOfAreAmong(init);
      WithoutStaysOrdered(LastOf(init), {last.element});
      forall e | e in Without(LastOf(init), {last.element})
        ensures EntryLessEq(e, last)
      {
        LastIsGreatest(added, e);
      }
      OneMoreInOrder(Without(LastOf(init), {last.element}), last);
    }
  }

  /** What is shown is determined by the entries: the smallest one of each element, in order. */
  lemma ShownIsSmallest(l: seq<Entry>, d: seq<Entry>)
    requires Ordered(l) && Ordered(d) && DistinctElements(d)
    requires forall e :: e in d <==> IsSmallestFor(e, l)
    ensures FirstOnly(l) == d
  {
    hide EntryLessEq, FirstOnly, Ordered, ElementsOf;
    FirstOnlyIsSmallest(l);
    forall e
      ensures e in FirstOnly(l) <==> IsSmallestFor(e, l)
    {
      if IsSmallestFor(e, l) {
        SmallestIsShown(l, e);
      }
    }
    DistinctAreOnce(d);
    DistinctAreOnce(FirstOnly(l));
    forall e
      ensures multiset(d)[e] == multiset(FirstOnly(l))[e]
    {
    }
    ListingUnique(d, FirstOnly(l), multiset(d));
  }

  lemma SmallestIsShown(l: seq<Entry>, e: Entry)
    requires Ordered(l) && IsSmallestFor(e, l)
    ensures e in FirstOnly(l)
  {
    hide EntryLessEq, FirstOnly, Ordered, ElementsOf;
    FirstOnlyIsSmallest(l);
    InElementsOf(l, e);
    var f := FromElementsOf(FirstOnly(l), e.element);
    EntryOrder(e, f);
  }

  lemma DistinctAreOnce(l: seq<Entry>)
    requires DistinctElements(l)
    ensures forall e :: multiset(l)[e] == if e in l then 1 else 0
  {
    forall e | e in l
      ensures multiset(l)[e] == 1
    {
      var i :| 0 <= i < |l| && l[i] == e;
      assert l == l[..i] + [e] + l[i + 1..];
      assert e !in l[..i] && e !in l[i + 1..];
    }
  }

  lemma OrderedJoin(a: seq<Entry>, b: seq<Entry>)
    requires Ordered(a) && Ordered(b) && forall e, f :: e in a && f in b ==> EntryLessEq(e, f)
    ensures Ordered(a + b)
  {
    hide EntryLessEq;
  }
}
