/** Where elements end up that are inserted into an array without duplicates: each of them
    leaves its old position, which the insertion makes up for by counting. */
module ArrayMoves {
  import opened Ordinals
  import opened ArrayListings
  import opened MutableArrays

  ghost predicate DistinctNames(news: seq<string>) {
    forall i, j :: 0 <= i < j < |news| ==> news[i] != news[j]
  }

  /** The entries shown up to a position, itself included. */
  ghost function UpTo(shown: seq<Entry>, idx: nat): seq<Entry> {
    shown[..Clamp(idx + 1, shown)]
  }

  lemma {:induction false} OneNameLess(l: seq<Entry>, gone: set<string>, name: string)
    requires DistinctElements(l) && name !in gone
    ensures |Without(l, gone)| == |Without(l, gone + {name})| + if name in ElementsOf(l) then 1 else 0
  {
    if l != [] {
      var init, last := l[..|l| - 1], l[|l| - 1];
      assert l == init + [last];
      OneNameLess(init, gone, name);
      AppendUnfolds(init, last, gone);
      AppendUnfolds(init, last, gone + {name});
      if last.element == name && name in ElementsOf(init) {
        var e := FromElementsOf(init, name);
        assert false;
      }
    }
  }

  lemma ShownUpTo(shown: seq<Entry>, name: string, idx: nat)
    ensures IsShownUpTo(shown, name, idx) <==> name in ElementsOf(UpTo(shown, idx))
  {
    hide ElementsOf;
    if j :| 0 <= j < |shown| && j <= idx && shown[j].element == name {
      assert UpTo(shown, idx)[j] == shown[j];
      InElementsOf(UpTo(shown, idx), shown[j]);
    }
    if name in ElementsOf(UpTo(shown, idx)) {
      var e := FromElementsOf(UpTo(shown, idx), name);
    }
  }

  /** The count is that of the shown entries up to the position which are to move. */
  lemma {:induction false} MovedIsCounted(shown: seq<Entry>, news: seq<string>, idx: nat)
    requires DistinctElements(shown) && DistinctNames(news)
    ensures MovedUpTo(shown, news, idx) + |Without(UpTo(shown, idx), Members(news))| == |UpTo(shown, idx)|
    decreases |news|
  {
    hide Without, ElementsOf, IsShownUpTo, MovedUpTo;
    var front := UpTo(shown, idx);
    if news == [] {
      NoneMoved(shown, idx);
      WithoutNone(front, {});
      assert Members<string>([]) == {};
    } else {
      var init, name := news[..|news| - 1], news[|news| - 1];
      assert news == init + [name];
      OneMoreMoved(shown, init, name, idx);
      MovedIsCounted(shown, init, idx);
      NextMember(news, |news| - 1);
      ShownUpTo(shown, name, idx);
      OneNameLess(front, Members(init), name);
      assert news[..|news|] == news;
    }
  }

  lemma {:induction false} WithoutFewer(l: seq<Entry>, gone: set<string>)
    ensures |Without(l, gone)| <= |l|
    ensures |Without(l, gone)| == |l| <==> forall e :: e in l ==> e.element !in gone
  {
    if l != [] {
      var init, last := l[..|l| - 1], l[|l| - 1];
      assert l == init + [last];
      WithoutFewer(init, gone);
    }
  }

  /** Of the entries from the position to another one, it counts how many are to go. */
  lemma CountBetween(shown: seq<Entry>, gone: set<string>, idx: nat, at: nat)
    requires idx < at <= |shown|
    ensures |Without(shown[..at], gone)| <= |Without(UpTo(shown, idx), gone)| + at - idx - 1
    ensures |Without(shown[..at], gone)| == |Without(UpTo(shown, idx), gone)| + at - idx - 1 <==>
            forall k :: idx < k < at ==> shown[k].element !in gone
  {
    hide Without;
    var front, between := UpTo(shown, idx), shown[idx + 1..at];
    assert shown[..at] == front + between;
    WithoutConcat(front, between, gone);
    WithoutFewer(between, gone);
    NoneBetween(shown, gone, idx, at);
  }

  lemma NoneBetween(shown: seq<Entry>, gone: set<string>, idx: nat, at: nat)
    requires idx < at <= |shown|
    ensures (forall e :: e in shown[idx + 1..at] ==> e.element !in gone) <==>
            forall k :: idx < k < at ==> shown[k].element !in gone
  {
    var between := shown[idx + 1..at];
    forall k | idx < k < at
      ensures shown[k] in between
    {
      assert shown[k] == between[k - idx - 1];
    }
  }

  /** Up to the position itself there is nothing to move if nothing has been counted. */
  lemma NothingToMove(shown: seq<Entry>, gone: set<string>, idx: nat)
    requires idx <= |shown| && |Without(UpTo(shown, idx), gone)| == |UpTo(shown, idx)|
    ensures |Without(shown[..idx], gone)| == idx
  {
    hide Without;
    WithoutFewer(UpTo(shown, idx), gone);
    WithoutFewer(shown[..idx], gone);
    assert forall e :: e in shown[..idx] ==> e in UpTo(shown, idx);
  }

  /** The moved elements come to be at the position asked for if and only if none of them is
      shown after it and before the adjusted position. */
  lemma LandsExactlyWhen(shown: seq<Entry>, news: seq<string>, idx: nat)
    requires DistinctElements(shown) && DistinctNames(news) && idx + MovedUpTo(shown, news, idx) <= |shown|
    ensures var at := idx + MovedUpTo(shown, news, idx);
            |Without(shown[..at], Members(news))| == idx <==>
            forall k :: idx < k < at ==> shown[k].element !in Members(news)
  {
    hide Without, MovedUpTo, Members, DistinctElements, DistinctNames;
    var at := idx + MovedUpTo(shown, news, idx);
    MovedIsCounted(shown, news, idx);
    if at == idx {
      NothingToMove(shown, Members(news), idx);
    } else {
      CountBetween(shown, Members(news), idx, at);
    }
  }

  /** That can fail: the first three elements, moved to position 1, end up at position 0. */
  lemma ThreeLandTooEarly(shown: seq<Entry>) returns (news: seq<string>)
    requires DistinctElements(shown) && |shown| >= 3
    ensures DistinctNames(news) && 1 + MovedUpTo(shown, news, 1) == 3 && Without(shown[..3], Members(news)) == []
  {
    hide Without, DistinctElements, MovedUpTo;
    news := [shown[0].element, shown[1].element, shown[2].element];
    assert DistinctNames(news) by { FirstThree(shown, news); }
    MovedIsCounted(shown, news, 1);
    WithoutNone(UpTo(shown, 1), Members(news));
    WithoutNone(shown[..3], Members(news));
  }

  lemma FirstThree(shown: seq<Entry>, news: seq<string>)
    requires DistinctElements(shown) && |shown| >= 3
    requires news == [shown[0].element, shown[1].element, shown[2].element]
    ensures DistinctNames(news)
  {
  }
}
