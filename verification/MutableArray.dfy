/** An array whose elements sit at ordinals: strings that leave room between any two. */
module MutableArrays {
  import opened Hashing
  import opened MultiMaps
  import opened Ordinals
  import AM = ArrayMaps
  import opened ArrayListings

  /** What the array shows of its live entries. */
  ghost function Visible(l: seq<Entry>, duplicates: bool): seq<Entry> {
    if duplicates then l else FirstOnly(l)
  }

  /** The elements that are not shown again. */
  ghost function Hidden(l: seq<Entry>, duplicates: bool): set<string> {
    if duplicates then {} else ElementsOf(l)
  }

  lemma ShowNext(l: seq<Entry>, e: Entry, duplicates: bool)
    ensures Visible([], duplicates) == [] && Hidden([], duplicates) == {}
    ensures duplicates ==> Hidden(l, duplicates) == {}
    ensures Visible(l + [e], duplicates) ==
            if duplicates || e.element !in Hidden(l, duplicates) then Visible(l, duplicates) + [e]
            else Visible(l, duplicates)
    ensures Hidden(l + [e], duplicates) == Hidden(l, duplicates) + if duplicates then {} else {e.element}
  {
  }

  ghost predicate IsContents(entries: seq<Entry>, bag: multiset<Entry>, duplicates: bool) {
    exists l :: IsListing(l, bag) && entries == Visible(l, duplicates)
  }

  ghost function Elements(entries: seq<Entry>): (r: seq<string>)
    ensures |r| == |entries| && forall i :: 0 <= i < |r| ==> r[i] == entries[i].element
  {
    seq(|entries|, i requires 0 <= i < |entries| => entries[i].element)
  }

  /** The insert ops that put an entry into the array and have not been deleted. */
  ghost function Holders(live: map<Hash, Entry>, e: Entry): set<Hash> {
    set id | id in live && live[id] == e
  }

  ghost predicate IsBagOf(bag: multiset<Entry>, live: map<Hash, Entry>) {
    forall e :: bag[e] == |Holders(live, e)|
  }

  lemma BagAfterInsert(bag: multiset<Entry>, live: map<Hash, Entry>, id: Hash, e: Entry)
    requires IsBagOf(bag, live) && id !in live
    ensures IsBagOf(bag + multiset{e}, live[id := e])
  {
    forall f
      ensures Holders(live[id := e], f) == if f == e then Holders(live, f) + {id} else Holders(live, f)
    {
    }
  }

  lemma BagAfterDelete(bag: multiset<Entry>, live: map<Hash, Entry>, id: Hash)
    requires IsBagOf(bag, live) && id in live
    ensures IsBagOf(bag - multiset{live[id]}, live - {id}) && live[id] in bag
  {
    assert id in Holders(live, live[id]);
    forall f
      ensures Holders(live - {id}, f) == if f == live[id] then Holders(live, f) - {id} else Holders(live, f)
    {
    }
  }

  lemma BagUnique(a: multiset<Entry>, b: multiset<Entry>, live: map<Hash, Entry>)
    requires IsBagOf(a, live) && IsBagOf(b, live)
    ensures a == b
  {
  }

  lemma BagHasNone(bag: multiset<Entry>, live: map<Hash, Entry>, e: Entry)
    requires IsBagOf(bag, live) && Holders(live, e) == {}
    ensures bag - multiset{e} == bag
  {
  }

  /** `after` is `before` without the entries of some elements. */
  ghost predicate IsBagWithout(before: multiset<Entry>, gone: set<string>, after: multiset<Entry>) {
    forall e :: after[e] == if e.element in gone then 0 else before[e]
  }

  ghost function Clamp(idx: nat, l: seq<Entry>): nat {
    if idx <= |l| then idx else |l|
  }

  /** `bag` shows as `d` with the slice of `count` entries from `idx` on cut out. */
  ghost predicate IsCut(d: seq<Entry>, idx: nat, count: nat, bag: multiset<Entry>, duplicates: bool) {
    exists r :: IsListing(r, bag) && Visible(r, duplicates) == d[..Clamp(idx, d)] + d[Clamp(idx + count, d)..]
  }

  /** The entries shown from `lo` to `hi` have been deleted, with duplicates one by one and
      otherwise with everything that holds their elements. */
  ghost predicate Trimmed(start: multiset<Entry>, shown: seq<Entry>, lo: nat, hi: nat, duplicates: bool,
                          bag: multiset<Entry>)
    requires lo <= hi <= |shown|
  {
    if duplicates then bag == start - multiset(shown[lo..hi]) else IsBagWithout(start, ElementsOf(shown[lo..hi]), bag)
  }

  lemma NothingTrimmed(bag: multiset<Entry>, shown: seq<Entry>, lo: nat, duplicates: bool)
    requires lo <= |shown|
    ensures Trimmed(bag, shown, lo, lo, duplicates, bag)
  {
  }

  lemma TrimmedOneMore(start: multiset<Entry>, shown: seq<Entry>, lo: nat, k: nat, duplicates: bool,
                       before: multiset<Entry>, after: multiset<Entry>)
    requires lo <= k < |shown| && Trimmed(start, shown, lo, k, duplicates, before)
    requires if duplicates then after == before - multiset{shown[k]}
             else IsBagWithout(before, {shown[k].element}, after)
    ensures Trimmed(start, shown, lo, k + 1, duplicates, after)
  {
    assert shown[lo..k + 1] == shown[lo..k] + [shown[k]];
    AppendUnfolds(shown[lo..k], shown[k], {});
  }

  lemma TrimEffect(start: multiset<Entry>, shown: seq<Entry>, idx: nat, count: nat, duplicates: bool,
                   bag: multiset<Entry>)
    requires IsContents(shown, start, duplicates)
    requires Trimmed(start, shown, Clamp(idx, shown), Clamp(idx + count, shown), duplicates, bag)
    ensures forall l :: IsListing(l, start) ==> IsCut(Visible(l, duplicates), idx, count, bag, duplicates)
  {
    hide Trimmed, Visible, Ordered;
    var lo, hi := Clamp(idx, shown), Clamp(idx + count, shown);
    var k :| IsListing(k, start) && shown == Visible(k, duplicates);
    forall l | IsListing(l, start)
      ensures IsCut(Visible(l, duplicates), idx, count, bag, duplicates)
    {
      ListingUnique(k, l, start);
      CutListing(l, lo, hi, duplicates, bag);
    }
  }

  lemma CutListing(l: seq<Entry>, lo: nat, hi: nat, duplicates: bool, bag: multiset<Entry>)
    requires Ordered(l) && lo <= hi <= |Visible(l, duplicates)|
    requires Trimmed(multiset(l), Visible(l, duplicates), lo, hi, duplicates, bag)
    ensures exists r ::
              IsListing(r, bag) && Visible(r, duplicates) == Visible(l, duplicates)[..lo] + Visible(l, duplicates)[hi..]
  {
    hide FirstOnly, EntryLessEq, ElementsOf, IsBagWithout, Ordered;
    if duplicates {
      CutOut(l, lo, hi);
      var r := l[..lo] + l[hi..];
      assert IsListing(r, bag);
    } else {
      CutVisible(l, lo, hi, bag);
    }
  }

  lemma CutVisible(l: seq<Entry>, lo: nat, hi: nat, bag: multiset<Entry>)
    requires Ordered(l) && lo <= hi <= |FirstOnly(l)|
    requires IsBagWithout(multiset(l), ElementsOf(FirstOnly(l)[lo..hi]), bag)
    ensures exists r :: IsListing(r, bag) && FirstOnly(r) == FirstOnly(l)[..lo] + FirstOnly(l)[hi..]
  {
    hide FirstOnly, Without, EntryLessEq, ElementsOf, DistinctElements;
    var d := FirstOnly(l);
    var gone := ElementsOf(d[lo..hi]);
    FirstOnlyIsSmallest(l);
    WithoutKeepsOrder(l, gone);
    FirstOnlyWithout(l, gone);
    assert d[..lo] + d[lo..hi] + d[hi..] == d;
    WithoutMiddle(d[..lo], d[lo..hi], d[hi..]);
    var r := Without(l, gone);
    assert multiset(r) == bag;
    assert IsListing(r, bag);
  }

  // ----- rebuilding -----

  ghost function RowEntries(ordinal: Ordinal, row: seq<string>): (r: seq<Entry>)
    ensures |r| == |row| && forall i :: 0 <= i < |r| ==> r[i] == Entry(ordinal, row[i])
  {
    seq(|row|, i requires 0 <= i < |row| => Entry(ordinal, row[i]))
  }

  lemma NextInRow(l: seq<Entry>, ordinal: Ordinal, row: seq<string>, j: nat)
    requires j < |row|
    ensures l + RowEntries(ordinal, row[..j + 1]) == l + RowEntries(ordinal, row[..j]) + [Entry(ordinal, row[j])]
  {
  }

  lemma {:induction false} RowBag(ordinal: Ordinal, row: seq<string>, e: Entry)
    ensures multiset(RowEntries(ordinal, row))[e] == if e.ordinal == ordinal then multiset(row)[e.element] else 0
  {
    if row == [] {
    } else {
      var n := |row| - 1;
      RowBag(ordinal, row[..n], e);
      assert row == row[..n] + [row[n]];
      assert RowEntries(ordinal, row) == RowEntries(ordinal, row[..n]) + [Entry(ordinal, row[n])];
    }
  }

  /** Keys in ascending order. */
  method SortedKeys(m: AM.ArrayMap) returns (keys: seq<string>)
    ensures AM.Ascending(keys) && multiset(keys) == multiset(m.Keys)
  {
    keys := [];
    var todo := m.Keys;
    while todo != {}
      invariant todo <= m.Keys && AM.Ascending(keys)
      invariant multiset(keys) + multiset(todo) == multiset(m.Keys)
      decreases |todo|
    {
      var k :| k in todo;
      AM.InsertAscending(keys, k);
      keys := AM.Insert(keys, k);
      assert multiset(todo) == multiset(todo - {k}) + multiset{k};
      todo := todo - {k};
    }
  }

  /** The entries stored so far, in order, are those of the keys handled so far. */
  ghost predicate ListsKeys(l: seq<Entry>, m: AM.ArrayMap, keys: seq<string>) {
    && Ordered(l)
    && (forall e :: e in l ==> e.ordinal in keys)
    && forall e :: multiset(l)[e] == if e.ordinal in keys then AM.Count(m, e.ordinal, e.element) else 0
  }

  lemma EmptyList(m: AM.ArrayMap)
    ensures ListsKeys([], m, [])
  {
  }

  lemma ListsNextKey(l: seq<Entry>, m: AM.ArrayMap, keys: seq<string>, key: string)
    requires AM.Valid(m) && ListsKeys(l, m, keys) && key in m
    requires forall k :: k in keys ==> Less(k, key)
    ensures ListsKeys(l + RowEntries(key, m[key]), m, keys + [key])
  {
    var row := RowEntries(key, m[key]);
    LessTrichotomy(key, key);
    forall e
      ensures multiset(l + row)[e] == if e.ordinal in keys + [key] then AM.Count(m, e.ordinal, e.element) else 0
    {
      RowBag(key, m[key], e);
    }
    forall i, j | 0 <= i < j < |l + row|
      ensures EntryLessEq((l + row)[i], (l + row)[j])
    {
      if i < |l| <= j {
        assert l[i] in l;
      }
    }
  }

  lemma CountUpTo(s: seq<string>, i: nat)
    requires i < |s|
    ensures multiset(s)[s[i]] >= 1 + multiset(s[..i])[s[i]]
  {
    assert s == s[..i] + [s[i]] + s[i + 1..];
  }

  lemma KeysIncrease(keys: seq<string>, ks: set<string>, i: nat)
    requires AM.Ascending(keys) && multiset(keys) == multiset(ks) && i < |keys|
    ensures forall k :: k in keys[..i] ==> Less(k, keys[i])
  {
    CountUpTo(keys, i);
    assert keys[i] !in multiset(keys[..i]);
  }

  lemma ListsAllKeys(l: seq<Entry>, m: AM.ArrayMap, keys: seq<string>, bag: multiset<Entry>)
    requires ListsKeys(l, m, keys) && multiset(keys) == multiset(m.Keys)
    requires forall e :: bag[e] == AM.Count(m, e.ordinal, e.element)
    ensures IsListing(l, bag)
  {
    forall e
      ensures multiset(l)[e] == bag[e]
    {
      assert e.ordinal in multiset(keys) <==> e.ordinal in multiset(m.Keys);
    }
  }

  /** The positions around `idx` hold entries with one and the same ordinal. */
  ghost predicate SharedOrdinal(l: seq<Entry>, idx: nat) {
    0 < idx < |l| && l[idx - 1].ordinal == l[idx].ordinal
  }

  /** The neighbours of position `idx`, as ordinals. */
  function After(entries: seq<Entry>, idx: nat): Option<Ordinal> {
    if 0 < idx <= |entries| then Some(entries[idx - 1].ordinal) else None
  }

  function Before(entries: seq<Entry>, idx: nat): Option<Ordinal> {
    if idx < |entries| then Some(entries[idx].ordinal) else None
  }

  /** The neighbours of a position are in order, so they are never reversed, and equal only
      when they share one ordinal. */
  lemma OrderedNeighbours(entries: seq<Entry>, idx: nat)
    requires Ordered(entries) && forall i :: 0 <= i < |entries| ==> IsOrdinal(entries[i].ordinal)
    ensures ValidBounds(After(entries, idx), Before(entries, idx))
    ensures !Reversed(After(entries, idx), Before(entries, idx))
    ensures Shared(After(entries, idx), Before(entries, idx)) <==> SharedOrdinal(entries, idx)
  {
    hide Less, IsOrdinal;
    if 0 < idx < |entries| {
      assert EntryLessEq(entries[idx - 1], entries[idx]);
      LessTrichotomy(entries[idx - 1].ordinal, entries[idx].ordinal);
    }
  }

  ghost predicate Shared(after: Option<Ordinal>, before: Option<Ordinal>) {
    after.Some? && after == before
  }

  /** The entries that one insertion has added so far, and the lower bound it has reached.
      Between apart bounds they form an increasing chain; between equal ones there can be
      only one, and it overshoots. */
  ghost predicate IsChain(added: seq<Entry>, news: seq<string>, lowest: Option<Ordinal>, before: Option<Ordinal>,
                          after: Option<Ordinal>)
  {
    && Elements(added) == news
    && (added == [] ==> after == lowest)
    && (added != [] ==> after == Some(added[|added| - 1].ordinal))
    && if Shared(lowest, before) then |added| <= 1 && (added != [] ==> Reversed(after, before))
       else
         && (forall k :: 0 <= k < |added| ==> IsBetween(lowest, added[k].ordinal, before))
         && (forall j, k :: 0 <= j < k < |added| ==> Less(added[j].ordinal, added[k].ordinal))
         && !Reversed(after, before) && !Shared(after, before)
  }

  function Members<T(==)>(s: seq<T>): set<T> {
    set x | x in s
  }

  lemma NextMember<T>(s: seq<T>, i: nat)
    requires i < |s|
    ensures s[..i + 1] == s[..i] + [s[i]] && Members(s[..i + 1]) == Members(s[..i]) + {s[i]}
  {
  }

  ghost predicate AreFresh(ids: seq<Hash>, known: set<Hash>) {
    forall i :: 0 <= i < |ids| ==> ids[i] !in known && ids[i] !in ids[..i]
  }

  lemma FreshAt(ids: seq<Hash>, known: set<Hash>, i: nat)
    requires AreFresh(ids, known) && i < |ids|
    ensures ids[i] !in known + Members(ids[..i])
  {
  }

  lemma ChainStart(news: seq<string>, lowest: Option<Ordinal>, before: Option<Ordinal>)
    requires !Reversed(lowest, before)
    ensures IsChain([], news[..0], lowest, before, lowest)
    ensures Members<Hash>([]) == {} && Members<string>([]) == {}
  {
  }

  /** A chain goes on unless it is one between equal bounds that has its entry. */
  lemma ChainGoesOn(added: seq<Entry>, news: seq<string>, i: nat, lowest: Option<Ordinal>, before: Option<Ordinal>,
                    after: Option<Ordinal>)
    requires i < |news| && IsChain(added, news[..i], lowest, before, after)
    ensures Reversed(after, before) ==> Shared(lowest, before) && |news| > 1
    ensures after.Some? && after == before <==> Shared(after, before)
    ensures Reversed(after, before) <==> Shared(lowest, before) && added != []
  {
    assert |added| == |Elements(added)| == i;
    if Shared(lowest, before) && added == [] {
      LessTrichotomy(lowest.value, lowest.value);
    }
  }

  lemma ChainDone(added: seq<Entry>, news: seq<string>, lowest: Option<Ordinal>, before: Option<Ordinal>,
                  after: Option<Ordinal>)
    requires IsChain(added, news[..|news|], lowest, before, after)
    ensures news[..|news|] == news
    ensures Shared(lowest, before) ==> |news| <= 1
    ensures !Shared(lowest, before) ==> ChainBetween(added, news, lowest, before)
  {
  }

  lemma ChainStep(added: seq<Entry>, news: seq<string>, lowest: Option<Ordinal>, before: Option<Ordinal>,
                  after: Option<Ordinal>, ordinal: Ordinal, element: string)
    requires IsChain(added, news, lowest, before, after) && !Reversed(after, before)
    requires IsBetween(after, ordinal, before) <==> !Shared(after, before)
    requires Shared(after, before) ==> ordinal == after.value + [MIDPOINT]
    ensures IsChain(added + [Entry(ordinal, element)], news + [element], lowest, before, Some(ordinal))
  {
    var more := added + [Entry(ordinal, element)];
    if Shared(lowest, before) {
      if added != [] {
        assert false;
      }
      assert LessAt(before.value, ordinal, |before.value|);
      LessWitness(before.value, ordinal, |before.value|);
    } else {
      if before.Some? {
        LessTrichotomy(ordinal, before.value);
      }
      forall j | 0 <= j < |added|
        ensures Less(added[j].ordinal, ordinal)
      {
        if j < |added| - 1 {
          LessTransitive(added[j].ordinal, after.value, ordinal);
        }
      }
      if added != [] && lowest.Some? {
        LessTransitive(lowest.value, after.value, ordinal);
      }
    }
  }

  ghost predicate ChainBetween(added: seq<Entry>, news: seq<string>, lowest: Option<Ordinal>, before: Option<Ordinal>) {
    && Elements(added) == news
    && (forall k :: 0 <= k < |added| ==> IsBetween(lowest, added[k].ordinal, before))
    && (forall j, k :: 0 <= j < k < |added| ==> Less(added[j].ordinal, added[k].ordinal))
  }

  /** The contents of `bag` are those of `l` with `news` spliced in at `idx`. */
  ghost predicate Spliced(l: seq<Entry>, idx: nat, news: seq<string>, bag: multiset<Entry>)
    requires idx <= |l|
  {
    exists r :: IsListing(r, bag) && Elements(r) == Elements(l)[..idx] + news + Elements(l)[idx..]
  }

  lemma ContentsOrdered(entries: seq<Entry>, bag: multiset<Entry>, duplicates: bool)
    requires IsContents(entries, bag, duplicates)
    ensures Ordered(entries) && forall i :: 0 <= i < |entries| ==> entries[i] in bag
  {
    hide EntryLessEq;
    var l :| IsListing(l, bag) && entries == Visible(l, duplicates);
    FirstOnlyIsSmallest(l);
    forall i | 0 <= i < |entries|
      ensures entries[i] in bag
    {
      assert entries[i] in entries;
      assert entries[i] in multiset(l);
    }
  }

  lemma SpliceEffect(shown: seq<Entry>, idx: nat, news: seq<string>, added: seq<Entry>,
                     before: multiset<Entry>, after: multiset<Entry>)
    requires IsContents(shown, before, true)
    requires idx <= |shown| && !SharedOrdinal(shown, idx) ==>
               && after == before + multiset(added)
               && ChainBetween(added, news, After(shown, idx), Before(shown, idx))
    ensures forall l :: IsListing(l, before) ==>
                          && l == shown
                          && (idx <= |l| && !SharedOrdinal(l, idx) ==> Spliced(l, idx, news, after))
  {
    hide IsContents, ChainBetween, IsListing;
    forall l | IsListing(l, before)
      ensures l == shown
      ensures idx <= |l| && !SharedOrdinal(l, idx) ==> Spliced(l, idx, news, after)
    {
      OnlyListing(shown, before, l);
      if idx <= |l| && !SharedOrdinal(l, idx) {
        ChainIsSpliced(l, idx, news, added, before);
      }
    }
  }

  lemma OnlyListing(shown: seq<Entry>, bag: multiset<Entry>, l: seq<Entry>)
    requires IsContents(shown, bag, true) && IsListing(l, bag)
    ensures l == shown
  {
    var k :| IsListing(k, bag) && shown == Visible(k, true);
    ListingUnique(k, l, bag);
  }

  lemma ElementsOfSplice(l: seq<Entry>, idx: nat, added: seq<Entry>)
    requires idx <= |l|
    ensures Elements(l[..idx] + added + l[idx..]) == Elements(l)[..idx] + Elements(added) + Elements(l)[idx..]
  {
  }

  lemma ChainIsOrdered(added: seq<Entry>, news: seq<string>, lowest: Option<Ordinal>, before: Option<Ordinal>)
    requires ChainBetween(added, news, lowest, before)
    ensures Ordered(added)
    ensures forall e :: e in added ==> IsBetween(lowest, e.ordinal, before)
  {
  }

  lemma ChainIsSpliced(l: seq<Entry>, idx: nat, news: seq<string>, added: seq<Entry>, bag: multiset<Entry>)
    requires idx <= |l| && IsListing(l, bag)
    requires ChainBetween(added, news, After(l, idx), Before(l, idx))
    ensures Spliced(l, idx, news, bag + multiset(added))
  {
    hide Less, Ordered;
    ChainIsOrdered(added, news, After(l, idx), Before(l, idx));
    SpliceIn(l, idx, added);
    ElementsOfSplice(l, idx, added);
  }

  /** Where an entry belongs in a listing. */
  lemma InsertionPoint(l: seq<Entry>, e: Entry) returns (i: nat)
    requires Ordered(l)
    ensures i <= |l| && (i > 0 ==> EntryLessEq(l[i - 1], e)) && (i < |l| ==> EntryLessEq(e, l[i]))
  {
    hide EntryLessEq;
    i := |l|;
    while i > 0 && !EntryLessEq(l[i - 1], e)
      invariant 0 <= i <= |l|
      invariant i < |l| ==> EntryLessEq(e, l[i])
    {
      EntryOrder(e, l[i - 1]);
      i := i - 1;
    }
  }

  /** A new entry above an ordinal that two neighbours share does not come between them:
      up to and including the second neighbour nothing changes. */
  lemma SharedOrdinalMisplaces(l: seq<Entry>, idx: nat, e: Entry, bag: multiset<Entry>, r: seq<Entry>)
    requires IsListing(l, bag) && SharedOrdinal(l, idx) && Less(l[idx].ordinal, e.ordinal)
    requires IsListing(r, bag + multiset{e})
    ensures idx + 1 <= |r| && r[..idx + 1] == l[..idx + 1]
  {
    assert EntryLessEq(l[idx], e) && l[idx] != e by { LessTrichotomy(e.ordinal, e.ordinal); }
    hide EntryLessEq;
    var i := InsertionPoint(l, e);
    SpliceIn(l, i, [e]);
    assert multiset(l) + multiset([e]) == bag + multiset{e};
    ListingUnique(r, l[..i] + [e] + l[i..], bag + multiset{e});
    if i <= idx {
      if i < idx {
        EntryTransitive(e, l[i], l[idx]);
      }
      EntryOrder(e, l[idx]);
      assert false;
    }
  }

  /** Both indices hold exactly the multiset of entries. */
  ghost predicate Index(byOrdinal: AM.ArrayMap, byElement: AM.ArrayMap, bag: multiset<Entry>) {
    && AM.Valid(byOrdinal) && AM.Valid(byElement)
    && (forall e :: bag[e] == AM.Count(byOrdinal, e.ordinal, e.element))
    && (forall e :: bag[e] == AM.Count(byElement, e.element, e.ordinal))
  }

  lemma IndexAdd(byOrdinal: AM.ArrayMap, byElement: AM.ArrayMap, bag: multiset<Entry>, e: Entry)
    requires Index(byOrdinal, byElement, bag)
    ensures Index(AM.Add(byOrdinal, e.ordinal, e.element), AM.Add(byElement, e.element, e.ordinal), bag + multiset{e})
  {
    hide AM.Add, AM.Count, AM.Valid;
    AM.AddKeeps(byOrdinal, e.ordinal, e.element);
    AM.AddKeeps(byElement, e.element, e.ordinal);
  }

  lemma IndexDelete(byOrdinal: AM.ArrayMap, byElement: AM.ArrayMap, bag: multiset<Entry>, e: Entry)
    requires Index(byOrdinal, byElement, bag) && e in bag
    ensures Index(AM.Delete(byOrdinal, e.ordinal, e.element), AM.Delete(byElement, e.element, e.ordinal),
              bag - multiset{e})
  {
    hide AM.Delete, AM.Count, AM.Valid;
    AM.DeleteKeeps(byOrdinal, e.ordinal, e.element);
    AM.DeleteKeeps(byElement, e.element, e.ordinal);
  }

  /** The op references and their ordinals are those of the live ops. */
  ghost predicate Records(refs: Rel<string, Hash>, ords: map<Hash, Ordinal>, live: map<Hash, Entry>) {
    && (forall h, id :: (h, id) in refs <==> id in live && live[id].element == h)
    && ords.Keys == live.Keys
    && (forall id :: id in live ==> ords[id] == live[id].ordinal && IsOrdinal(live[id].ordinal))
  }

  lemma RecordInsert(refs: Rel<string, Hash>, ords: map<Hash, Ordinal>, live: map<Hash, Entry>, id: Hash, e: Entry)
    requires Records(refs, ords, live) && id !in live && IsOrdinal(e.ordinal)
    ensures Records(refs + {(e.element, id)}, ords[id := e.ordinal], live[id := e])
  {
  }

  lemma RecordDelete(refs: Rel<string, Hash>, ords: map<Hash, Ordinal>, live: map<Hash, Entry>, id: Hash, h: string)
    requires Records(refs, ords, live) && (h, id) in refs
    ensures Records(refs - {(h, id)}, ords - {id}, live - {id})
    ensures id in live && id in ords && live[id] == Entry(ords[id], h)
  {
  }

  lemma RecordAbsent(refs: Rel<string, Hash>, ords: map<Hash, Ordinal>, live: map<Hash, Entry>, id: Hash, h: string)
    requires Records(refs, ords, live) && (h, id) !in refs
    ensures !(id in live && live[id].element == h)
  {
  }

  ghost predicate IsLiveElement(h: string, live: map<Hash, Entry>) {
    exists id :: id in live && live[id].element == h
  }

  ghost predicate AreElements(elements: set<string>, live: map<Hash, Entry>) {
    forall h :: h in elements <==> IsLiveElement(h, live)
  }

  lemma LiveElementHasRefs(refs: Rel<string, Hash>, ords: map<Hash, Ordinal>, live: map<Hash, Entry>, h: string)
    requires Records(refs, ords, live)
    ensures Get(refs, h) != {} <==> IsLiveElement(h, live)
  {
    if id :| id in live && live[id].element == h {
      assert id in Get(refs, h);
    }
    if id :| id in Get(refs, h) {
      assert id in live && live[id].element == h;
    }
  }

  lemma ElementsAfterInsert(elements: set<string>, live: map<Hash, Entry>, id: Hash, e: Entry)
    requires AreElements(elements, live) && id !in live
    ensures AreElements(elements + {e.element}, live[id := e])
    ensures IsLiveElement(e.element, live) ==> elements + {e.element} == elements
  {
    var more := live[id := e];
    assert id in more && more[id] == e;
    forall h | IsLiveElement(h, live)
      ensures IsLiveElement(h, more)
    {
      var i :| i in live && live[i].element == h;
      assert i in more && more[i].element == h;
    }
    forall h | IsLiveElement(h, more) && h != e.element
      ensures IsLiveElement(h, live)
    {
      var i :| i in more && more[i].element == h;
      assert i in live;
    }
  }

  /** What a delete op leaves of the live ops: those it lists under its element are gone. */
  ghost function AfterDelete(live: map<Hash, Entry>, h: string, ids: set<Hash>): map<Hash, Entry> {
    map id | id in live && !(live[id].element == h && id in ids) :: live[id]
  }

  /** Inserting an entry and deleting older ops of the same element adds just the element. */
  lemma ElementsAfterMove(live: map<Hash, Entry>, id: Hash, e: Entry, oldIds: set<Hash>,
                          before: set<string>, after: set<string>)
    requires AreElements(before, live) && id !in live && oldIds <= live.Keys
    requires AreElements(after, AfterDelete(live[id := e], e.element, oldIds))
    ensures after == before + {e.element}
    ensures AfterDelete(live[id := e], e.element, oldIds).Keys <= live.Keys + {id}
  {
    ElementsAfterInsert(before, live, id, e);
    ElementsAfterDelete(before + {e.element}, live[id := e], e.element, oldIds);
    var rest := AfterDelete(live[id := e], e.element, oldIds);
    assert id in rest && rest[id].element == e.element;
  }

  lemma AfterNone(live: map<Hash, Entry>, h: string)
    ensures AfterDelete(live, h, {}) == live
  {
  }

  lemma AfterOneMore(live: map<Hash, Entry>, h: string, ids: set<Hash>, id: Hash)
    ensures var before := AfterDelete(live, h, ids);
            AfterDelete(live, h, ids + {id}) ==
            if id in before && before[id].element == h then before - {id} else before
  {
  }

  lemma BagAfterOne(bag: multiset<Entry>, live: map<Hash, Entry>, id: Hash, after: multiset<Entry>)
    requires IsBagOf(bag, live) && id in live
    requires IsBagOf(after, AfterDelete(live, live[id].element, {id}))
    ensures after == bag - multiset{live[id]}
  {
    BagAfterDelete(bag, live, id);
    assert AfterDelete(live, live[id].element, {id}) == live - {id};
    BagUnique(after, bag - multiset{live[id]}, live - {id});
  }

  lemma BagAfterAll(bag: multiset<Entry>, live: map<Hash, Entry>, h: string, ids: set<Hash>, after: multiset<Entry>)
    requires IsBagOf(bag, live) && IsBagOf(after, AfterDelete(live, h, ids))
    requires forall id :: id in live && live[id].element == h ==> id in ids
    ensures IsBagWithout(bag, {h}, after)
  {
    var rest := AfterDelete(live, h, ids);
    forall e
      ensures after[e] == if e.element == h then 0 else bag[e]
    {
      assert bag[e] == |Holders(live, e)| && after[e] == |Holders(rest, e)|;
      assert Holders(rest, e) == if e.element == h then {} else Holders(live, e);
    }
  }

  // ----- moving elements, without duplicates -----

  /** The entry has taken the place of all older ones of its element. */
  ghost predicate IsReplaced(before: multiset<Entry>, e: Entry, after: multiset<Entry>) {
    forall f :: after[f] == if f.element == e.element then (if f == e then 1 else 0) else before[f]
  }

  lemma BagAfterMove(before: multiset<Entry>, live: map<Hash, Entry>, id: Hash, e: Entry, ids: set<Hash>,
                     after: multiset<Entry>)
    requires IsBagOf(before, live) && id !in live
    requires forall i :: i in ids <==> i in live && live[i].element == e.element
    requires IsBagOf(after, AfterDelete(live[id := e], e.element, ids))
    ensures IsReplaced(before, e, after)
  {
    var rest := AfterDelete(live[id := e], e.element, ids);
    forall f
      ensures after[f] == if f.element == e.element then (if f == e then 1 else 0) else before[f]
    {
      assert after[f] == |Holders(rest, f)| && before[f] == |Holders(live, f)|;
      if f.element == e.element {
        assert Holders(rest, f) == if f == e then {id} else {};
      } else {
        assert Holders(rest, f) == Holders(live, f);
      }
    }
  }

  /** Entries have been added one after the other, each in place of the older ones of its element. */
  ghost predicate IsMoved(before: multiset<Entry>, added: seq<Entry>, after: multiset<Entry>) {
    forall e :: after[e] ==
      if e.element in ElementsOf(added) then (if e in LastOf(added) then 1 else 0) else before[e]
  }

  lemma NothingMoved(bag: multiset<Entry>)
    ensures IsMoved(bag, [], bag)
  {
  }

  lemma MovedOneMore(start: multiset<Entry>, added: seq<Entry>, before: multiset<Entry>, e: Entry,
                     after: multiset<Entry>)
    requires IsMoved(start, added, before) && IsReplaced(before, e, after)
    ensures IsMoved(start, added + [e], after)
  {
    hide ElementsOf, Without;
    AppendUnfolds(added, e, {});
    LastOfAreAmong(added);
    assert (added + [e])[..|added|] == added;
    assert forall f :: f in LastOf(added + [e]) <==> f == e || (f in LastOf(added) && f.element != e.element);
  }

  lemma {:induction false} SomeListing(bag: multiset<Entry>) returns (l: seq<Entry>)
    ensures IsListing(l, bag)
    decreases |bag|
  {
    hide EntryLessEq;
    if bag == multiset{} {
      l := [];
    } else {
      var e :| e in bag;
      var rest := SomeListing(bag - multiset{e});
      var i := InsertionPoint(rest, e);
      SpliceIn(rest, i, [e]);
      l := rest[..i] + [e] + rest[i..];
      assert multiset(rest) + multiset([e]) == bag;
    }
  }

  ghost predicate IsShownUpTo(shown: seq<Entry>, name: string, idx: nat) {
    exists j :: 0 <= j < |shown| && j <= idx && shown[j].element == name
  }

  /** How many of the names are shown up to a position, itself included. */
  ghost function MovedUpTo(shown: seq<Entry>, news: seq<string>, idx: nat): nat {
    |set i | 0 <= i < |news| && IsShownUpTo(shown, news[i], idx)|
  }

  lemma NoneMoved(shown: seq<Entry>, idx: nat)
    ensures MovedUpTo(shown, [], idx) == 0
  {
  }

  lemma OneMoreMoved(shown: seq<Entry>, news: seq<string>, name: string, idx: nat)
    ensures MovedUpTo(shown, news + [name], idx) ==
            MovedUpTo(shown, news, idx) + if IsShownUpTo(shown, name, idx) then 1 else 0
  {
    hide IsShownUpTo;
    var longer := news + [name];
    var before := set i | 0 <= i < |news| && IsShownUpTo(shown, news[i], idx);
    assert (set i | 0 <= i < |longer| && IsShownUpTo(shown, longer[i], idx)) ==
           before + if IsShownUpTo(shown, name, idx) then {|news|} else {};
  }

  /** The last occurrence of each name. */
  ghost function LastNames(names: seq<string>): seq<string> {
    if names == [] then []
    else NamesWithout(LastNames(names[..|names| - 1]), names[|names| - 1]) + [names[|names| - 1]]
  }

  ghost function NamesWithout(names: seq<string>, gone: string): seq<string> {
    if names == [] then []
    else
      NamesWithout(names[..|names| - 1], gone) +
      if names[|names| - 1] == gone then [] else [names[|names| - 1]]
  }

  lemma {:induction false} ElementsOfWithout(l: seq<Entry>, gone: string)
    ensures Elements(Without(l, {gone})) == NamesWithout(Elements(l), gone)
  {
    if l != [] {
      var init, last := l[..|l| - 1], l[|l| - 1];
      ElementsOfWithout(init, gone);
      assert Elements(l)[..|l| - 1] == Elements(init);
    }
  }

  lemma {:induction false} ElementsOfLast(added: seq<Entry>)
    ensures Elements(LastOf(added)) == LastNames(Elements(added))
    decreases |added|
  {
    hide Without, NamesWithout, Elements, LastNames;
    if added == [] {
      NoNames();
    } else {
      var init, last := added[..|added| - 1], added[|added| - 1];
      ElementsOfLast(init);
      ElementsOfWithout(LastOf(init), last.element);
      ElementsJoin(Without(LastOf(init), {last.element}), [last]);
      assert added == init + [last];
      ElementsJoin(init, [last]);
      OneName(last);
      OneMoreName(Elements(init), last.element);
    }
  }

  lemma NoNames()
    ensures Elements([]) == [] && LastNames([]) == []
  {
  }

  lemma OneName(e: Entry)
    ensures Elements([e]) == [e.element]
  {
  }

  lemma OneMoreName(names: seq<string>, name: string)
    ensures LastNames(names + [name]) == NamesWithout(LastNames(names), name) + [name]
  {
    assert (names + [name])[..|names|] == names;
  }

  /** The shown contents around `at`, without what has been moved in between. */
  ghost function Moved(shown: seq<Entry>, at: nat, gone: set<string>, added: seq<Entry>): seq<Entry>
    requires at <= |shown|
  {
    Without(shown[..at], gone) + LastOf(added) + Without(shown[at..], gone)
  }

  /** The contents of `bag` are what was shown, with `news` moved or inserted at `at`. */
  ghost predicate MovedTo(shown: seq<Entry>, at: nat, news: seq<string>, bag: multiset<Entry>)
    requires at <= |shown|
  {
    exists r :: IsListing(r, bag) &&
      Elements(FirstOnly(r)) ==
      Elements(Without(shown[..at], Members(news))) + LastNames(news) + Elements(Without(shown[at..], Members(news)))
  }

  lemma MovedIsOrdered(shown: seq<Entry>, at: nat, gone: set<string>, added: seq<Entry>, news: seq<string>)
    requires at <= |shown| && Ordered(shown)
    requires ChainBetween(added, news, After(shown, at), Before(shown, at))
    ensures Ordered(Moved(shown, at, gone, added))
  {
    hide Less, EntryLessEq, Without, LastOf;
    var left, kept, right := Without(shown[..at], gone), LastOf(added), Without(shown[at..], gone);
    ChainIsOrdered(added, news, After(shown, at), Before(shown, at));
    LastOfStaysOrdered(added);
    LastOfAreAmong(added);
    WithoutStaysOrdered(shown[..at], gone);
    WithoutStaysOrdered(shown[at..], gone);
    forall e, f | e in left + kept && f in right
      ensures EntryLessEq(e, f)
    {
      JoinIsOrdered(shown, at, added, news, e, f);
    }
    forall e, f | e in left && f in kept
      ensures EntryLessEq(e, f)
    {
      JoinIsOrdered(shown, at, added, news, e, f);
    }
    OrderedJoin(left, kept);
    OrderedJoin(left + kept, right);
  }

  lemma JoinIsOrdered(shown: seq<Entry>, at: nat, added: seq<Entry>, news: seq<string>, e: Entry, f: Entry)
    requires at <= |shown| && Ordered(shown)
    requires ChainBetween(added, news, After(shown, at), Before(shown, at))
    requires (e in shown[..at] && (f in added || f in shown[at..])) || (e in added && f in shown[at..])
    ensures EntryLessEq(e, f)
  {
    if e in shown[..at] && f in shown[at..] {
      BothSides(shown, at, e, f);
    } else if e in shown[..at] {
      LastBefore(shown, at, e);
      EntryTransitive(e, shown[at - 1], f);
    } else {
      FirstAfter(shown, at, f);
      EntryTransitive(e, shown[at], f);
    }
  }

  lemma BothSides(shown: seq<Entry>, at: nat, e: Entry, f: Entry)
    requires at <= |shown| && Ordered(shown) && e in shown[..at] && f in shown[at..]
    ensures EntryLessEq(e, f)
  {
    hide EntryLessEq;
    var i :| 0 <= i < at && shown[..at][i] == e;
    var j :| 0 <= j < |shown| - at && shown[at..][j] == f;
    assert shown[i] == e && shown[at + j] == f;
  }

  lemma LastBefore(shown: seq<Entry>, at: nat, e: Entry)
    requires at <= |shown| && Ordered(shown) && e in shown[..at]
    ensures at > 0 && EntryLessEq(e, shown[at - 1])
  {
    EntryOrder(e, e);
    hide EntryLessEq;
    var i :| 0 <= i < at && shown[..at][i] == e;
  }

  lemma FirstAfter(shown: seq<Entry>, at: nat, f: Entry)
    requires at <= |shown| && Ordered(shown) && f in shown[at..]
    ensures at < |shown| && EntryLessEq(shown[at], f)
  {
    EntryOrder(f, f);
    hide EntryLessEq;
    var j :| 0 <= j < |shown| - at && shown[at..][j] == f;
  }

  lemma MovedIsDistinct(shown: seq<Entry>, at: nat, gone: set<string>, added: seq<Entry>)
    requires at <= |shown| && DistinctElements(shown) && gone == ElementsOf(added)
    ensures DistinctElements(Moved(shown, at, gone, added))
    ensures forall e :: e in Moved(shown, at, gone, added) <==>
              (e in shown && e.element !in gone) || e in LastOf(added)
  {
    hide Without, LastOf, ElementsOf;
    var left, kept, right := Without(shown[..at], gone), LastOf(added), Without(shown[at..], gone);
    LastOfAreAmong(added);
    assert shown == shown[..at] + shown[at..];
    WithoutConcat(shown[..at], shown[at..], gone);
    WithoutStaysDistinct(shown, gone);
    assert DistinctElements(left + right);
    DistinctJoin(left, kept, right);
  }

  lemma DistinctJoin(left: seq<Entry>, middle: seq<Entry>, right: seq<Entry>)
    requires DistinctElements(left + right) && DistinctElements(middle)
    requires forall e, f :: e in left + right && f in middle ==> e.element != f.element
    ensures DistinctElements(left + middle + right)
  {
    var d, s := left + middle + right, left + right;
    forall i, j | 0 <= i < j < |d|
      ensures d[i].element != d[j].element
    {
      var p := if i < |left| then i else i - |middle|;
      var q := if j < |left| then j else j - |middle|;
      if !(|left| <= i < |left| + |middle|) && !(|left| <= j < |left| + |middle|) {
        assert d[i] == s[p] && d[j] == s[q];
      } else if !(|left| <= i < |left| + |middle|) {
        assert d[i] == s[p] && d[j] == middle[j - |left|];
      } else if !(|left| <= j < |left| + |middle|) {
        assert d[j] == s[q] && d[i] == middle[i - |left|];
      }
    }
  }

  /** What is shown after a move. */
  lemma MoveIsShown(l: seq<Entry>, at: nat, added: seq<Entry>, news: seq<string>, r: seq<Entry>)
    requires Ordered(l) && Ordered(r) && at <= |FirstOnly(l)| && IsMoved(multiset(l), added, multiset(r))
    requires ChainBetween(added, news, After(FirstOnly(l), at), Before(FirstOnly(l), at))
    ensures FirstOnly(r) == Moved(FirstOnly(l), at, ElementsOf(added), added)
  {
    hide EntryLessEq, Less, FirstOnly, LastOf, Without, ElementsOf, IsMoved, Ordered, Moved, ChainBetween;
    hide DistinctElements;
    var shown, gone := FirstOnly(l), ElementsOf(added);
    FirstOnlyIsSmallest(l);
    MovedIsOrdered(shown, at, gone, added, news);
    MovedIsDistinct(shown, at, gone, added);
    var d := Moved(shown, at, gone, added);
    forall e
      ensures e in d <==> IsSmallestFor(e, r)
    {
      MovedIsSmallest(l, added, r, e);
    }
    ShownIsSmallest(r, d);
  }

  lemma MovedIsSmallest(l: seq<Entry>, added: seq<Entry>, r: seq<Entry>, e: Entry)
    requires Ordered(l) && IsMoved(multiset(l), added, multiset(r))
    ensures (e in FirstOnly(l) && e.element !in ElementsOf(added)) || e in LastOf(added) <==> IsSmallestFor(e, r)
  {
    hide FirstOnly, LastOf, Without, ElementsOf, Ordered;
    assert forall f :: (f in r <==> multiset(r)[f] > 0) && (f in l <==> multiset(l)[f] > 0);
    LastOfAreAmong(added);
    EntryOrder(e, e);
    hide EntryLessEq;
    if e.element in ElementsOf(added) {
      forall f | e in LastOf(added) && f in r && f.element == e.element
        ensures f == e
      {
        OnlyOneOf(LastOf(added), e, f);
      }
    } else {
      FirstOnlyIsSmallest(l);
      if IsSmallestFor(e, l) {
        SmallestIsShown(l, e);
      }
    }
  }

  lemma OnlyOneOf(l: seq<Entry>, e: Entry, f: Entry)
    requires DistinctElements(l) && e in l && f in l && e.element == f.element
    ensures e == f
  {
  }

  lemma MoveEffect(shown: seq<Entry>, at: nat, news: seq<string>, added: seq<Entry>, before: multiset<Entry>,
                   after: multiset<Entry>)
    requires IsContents(shown, before, false)
    requires at <= |shown| && !SharedOrdinal(shown, at) ==>
               IsMoved(before, added, after) && ChainBetween(added, news, After(shown, at), Before(shown, at))
    ensures forall l :: IsListing(l, before) ==> FirstOnly(l) == shown
    ensures at <= |shown| && !SharedOrdinal(shown, at) ==> MovedTo(shown, at, news, after)
  {
    hide FirstOnly, Ordered, IsMoved, ChainBetween, LastOf, Without, ElementsOf, Moved, SharedOrdinal, Members;
    var k :| IsListing(k, before) && shown == Visible(k, false);
    forall l | IsListing(l, before)
      ensures FirstOnly(l) == shown
    {
      ListingUnique(k, l, before);
    }
    if at <= |shown| && !SharedOrdinal(shown, at) {
      var r := SomeListing(after);
      MoveIsShown(k, at, added, news, r);
      ChainNames(added, news, After(shown, at), Before(shown, at));
      ElementsOfLast(added);
      ElementsOfMoved(shown, at, ElementsOf(added), added);
    }
  }

  lemma ChainNames(added: seq<Entry>, news: seq<string>, lowest: Option<Ordinal>, before: Option<Ordinal>)
    requires ChainBetween(added, news, lowest, before)
    ensures Elements(added) == news && ElementsOf(added) == Members(news)
  {
    hide Less;
    NamesAreMembers(added);
  }

  lemma {:induction false} NamesAreMembers(added: seq<Entry>)
    ensures ElementsOf(added) == Members(Elements(added))
  {
    if added != [] {
      var n := |added| - 1;
      NamesAreMembers(added[..n]);
      assert Elements(added)[..n] == Elements(added[..n]);
      NextMember(Elements(added), n);
      assert Elements(added)[..n + 1] == Elements(added);
    }
  }

  lemma ElementsOfMoved(shown: seq<Entry>, at: nat, gone: set<string>, added: seq<Entry>)
    requires at <= |shown|
    ensures Elements(Moved(shown, at, gone, added)) ==
            Elements(Without(shown[..at], gone)) + Elements(LastOf(added)) + Elements(Without(shown[at..], gone))
  {
    hide Without, LastOf, Elements;
    ElementsJoin(Without(shown[..at], gone), LastOf(added));
    ElementsJoin(Without(shown[..at], gone) + LastOf(added), Without(shown[at..], gone));
  }

  lemma NoNeighbours(shown: seq<Entry>, at: nat)
    requires at > |shown|
    ensures After(shown, at) == None && Before(shown, at) == None && !Shared(None, None)
  {
  }

  lemma AddedBeyondEnd(before: multiset<Entry>, news: seq<string>, added: seq<Entry>, after: multiset<Entry>,
                       duplicates: bool)
    requires ChainBetween(added, news, None, None)
    requires if duplicates then after == before + multiset(added) else IsMoved(before, added, after)
    ensures AddedAnywhere(before, news, after, duplicates)
  {
  }

  lemma ElementsJoin(a: seq<Entry>, b: seq<Entry>)
    ensures Elements(a + b) == Elements(a) + Elements(b)
  {
  }

  /** Beyond the end there are no neighbours: the entries that have been added form an
      increasing chain of ordinals, wherever these are among the others. */
  ghost predicate AddedAnywhere(before: multiset<Entry>, news: seq<string>, after: multiset<Entry>, duplicates: bool) {
    exists added :: ChainBetween(added, news, None, None) &&
      if duplicates then after == before + multiset(added) else IsMoved(before, added, after)
  }

  lemma ElementsAfterDelete(elements: set<string>, live: map<Hash, Entry>, h: string, ids: set<Hash>)
    requires AreElements(elements, live)
    ensures var rest := AfterDelete(live, h, ids);
            AreElements(if IsLiveElement(h, rest) then elements else elements - {h}, rest)
  {
    var rest := AfterDelete(live, h, ids);
    forall x | x != h
      ensures IsLiveElement(x, rest) <==> IsLiveElement(x, live)
    {
      if i :| i in live && live[i].element == x {
        assert i in rest && rest[i].element == x;
      }
      if i :| i in rest && rest[i].element == x {
        assert i in live && live[i].element == x;
      }
    }
    if i :| i in rest && rest[i].element == h {
      assert i in live && live[i].element == h;
    }
  }

  /** Elements are identified by their hashes, so one array of entries stands for the
      parallel arrays of contents, hashes and ordinals. */
  class MutableArray {
    const duplicates: bool

    var elementsPerOrdinal: AM.ArrayMap
    var ordinalsPerElement: AM.ArrayMap
    var elements: set<string>
    var currentInsertOpRefs: Rel<string, Hash>
    var currentInsertOpOrds: map<Hash, Ordinal>
    var needToRebuild: bool
    var entries: seq<Entry>

    /** The insert ops in force, and the multiset of the entries they made. */
    ghost var live: map<Hash, Entry>
    ghost var bag: multiset<Entry>

    ghost predicate OpsExact()
      reads `live, `elements, `currentInsertOpRefs, `currentInsertOpOrds
    {
      Records(currentInsertOpRefs, currentInsertOpOrds, live) && AreElements(elements, live)
    }

    ghost predicate IndicesExact()
      reads `bag, `elementsPerOrdinal, `ordinalsPerElement
    {
      Index(elementsPerOrdinal, ordinalsPerElement, bag)
    }

    ghost predicate Valid()
      reads this
    {
      && OpsExact() && IndicesExact() && IsBagOf(bag, live)
      && (!needToRebuild ==> IsContents(entries, bag, duplicates))
    }

    constructor (duplicates: bool)
      ensures Valid() && live == map[] && bag == multiset{} && this.duplicates == duplicates
    {
      this.duplicates := duplicates;
      elementsPerOrdinal, ordinalsPerElement, elements := map[], map[], {};
      currentInsertOpRefs, currentInsertOpOrds := {}, map[];
      needToRebuild, entries := false, [];
      live, bag := map[], multiset{};
      new;
      assert IsListing([], multiset{});
    }

    method MutateInsert(id: Hash, element: string, ordinal: Ordinal)
      requires Valid() && IsOrdinal(ordinal) && id !in live
      modifies this
      ensures Valid() && live == old(live)[id := Entry(ordinal, element)]
      ensures bag == old(bag) + multiset{Entry(ordinal, element)}
    {
      hide Index, Records, IsBagOf, IsContents, AreElements, IsLiveElement, AM.Add, IsOrdinal;
      ghost var e := Entry(ordinal, element);
      IndexAdd(elementsPerOrdinal, ordinalsPerElement, bag, e);
      RecordInsert(currentInsertOpRefs, currentInsertOpOrds, live, id, e);
      ElementsAfterInsert(elements, live, id, e);
      LiveElementHasRefs(currentInsertOpRefs, currentInsertOpOrds, live, element);
      BagAfterInsert(bag, live, id, e);
      elementsPerOrdinal := AM.Add(elementsPerOrdinal, ordinal, element);
      ordinalsPerElement := AM.Add(ordinalsPerElement, element, ordinal);
      if Get(currentInsertOpRefs, element) == {} {
        elements := elements + {element};
      }
      currentInsertOpRefs := currentInsertOpRefs + {(element, id)};
      currentInsertOpOrds := currentInsertOpOrds[id := ordinal];
      needToRebuild := true;
      live, bag := live[id := e], bag + multiset{e};
    }

    /** Takes one insert op of `element` out of force. */
    method DeleteRef(element: string, id: Hash)
      requires Records(currentInsertOpRefs, currentInsertOpOrds, live) && IndicesExact() && IsBagOf(bag, live)
      requires (element, id) in currentInsertOpRefs
      modifies `elementsPerOrdinal, `ordinalsPerElement, `currentInsertOpRefs, `currentInsertOpOrds, `live, `bag
      ensures Records(currentInsertOpRefs, currentInsertOpOrds, live) && IndicesExact() && IsBagOf(bag, live)
      ensures id in old(live) && old(live)[id].element == element && live == old(live) - {id}
      ensures bag == old(bag) - multiset{old(live)[id]}
      ensures currentInsertOpRefs == old(currentInsertOpRefs) - {(element, id)}
    {
      hide Index, Records, IsBagOf, AM.Delete;
      RecordDelete(currentInsertOpRefs, currentInsertOpOrds, live, id, element);
      ghost var e := live[id];
      BagAfterDelete(bag, live, id);
      IndexDelete(elementsPerOrdinal, ordinalsPerElement, bag, e);
      var ordinal := currentInsertOpOrds[id];
      currentInsertOpRefs := currentInsertOpRefs - {(element, id)};
      currentInsertOpOrds := currentInsertOpOrds - {id};
      elementsPerOrdinal := AM.Delete(elementsPerOrdinal, ordinal, element);
      ordinalsPerElement := AM.Delete(ordinalsPerElement, element, ordinal);
      live, bag := live - {id}, bag - multiset{e};
    }

    method DeleteRefs(element: string, ids: set<Hash>)
      requires Records(currentInsertOpRefs, currentInsertOpOrds, live) && IndicesExact() && IsBagOf(bag, live)
      modifies `elementsPerOrdinal, `ordinalsPerElement, `currentInsertOpRefs, `currentInsertOpOrds, `live, `bag
      ensures Records(currentInsertOpRefs, currentInsertOpOrds, live) && IndicesExact() && IsBagOf(bag, live)
      ensures live == AfterDelete(old(live), element, ids)
    {
      hide Index, Records, IsBagOf, AfterDelete;
      AfterNone(live, element);
      var todo := ids;
      ghost var done: set<Hash> := {};
      while todo != {}
        invariant ids == done + todo
        invariant Records(currentInsertOpRefs, currentInsertOpOrds, live) && IndicesExact() && IsBagOf(bag, live)
        invariant live == AfterDelete(old(live), element, done)
        decreases |todo|
      {
        var opRef :| opRef in todo;
        todo := todo - {opRef};
        AfterOneMore(old(live), element, done, opRef);
        done := done + {opRef};
        if (element, opRef) in currentInsertOpRefs {
          DeleteRef(element, opRef);
        } else {
          RecordAbsent(currentInsertOpRefs, currentInsertOpOrds, live, opRef, element);
        }
      }
    }

    method MutateDelete(elementHash: string, deletedOps: set<Hash>)
      requires Valid()
      modifies this
      ensures Valid() && live == AfterDelete(old(live), elementHash, deletedOps)
    {
      hide Index, Records, IsBagOf, IsContents, AreElements, IsLiveElement, AfterDelete;
      ElementsAfterDelete(elements, live, elementHash, deletedOps);
      DeleteRefs(elementHash, deletedOps);
      LiveElementHasRefs(currentInsertOpRefs, currentInsertOpOrds, live, elementHash);
      needToRebuild := true;
      if Get(currentInsertOpRefs, elementHash) == {} {
        elements := elements - {elementHash};
      }
    }

    // ----- reading -----

    /** Shows one row: the next entries of the listing `l`. */
    static method ShowRow(ordinal: Ordinal, row: seq<string>, duplicates: bool, shown: seq<Entry>, seen: set<string>,
                          ghost l: seq<Entry>) returns (shown': seq<Entry>, seen': set<string>)
      requires shown == Visible(l, duplicates) && seen == Hidden(l, duplicates)
      ensures var more := l + RowEntries(ordinal, row);
              shown' == Visible(more, duplicates) && seen' == Hidden(more, duplicates)
    {
      hide Visible, Hidden, RowEntries;
      shown', seen' := shown, seen;
      assert l + RowEntries(ordinal, row[..0]) == l;
      for j := 0 to |row|
        invariant shown' == Visible(l + RowEntries(ordinal, row[..j]), duplicates)
        invariant seen' == Hidden(l + RowEntries(ordinal, row[..j]), duplicates)
      {
        var e := Entry(ordinal, row[j]);
        NextInRow(l, ordinal, row, j);
        ShowNext(l + RowEntries(ordinal, row[..j]), e, duplicates);
        if duplicates || row[j] !in seen' {
          shown' := shown' + [e];
          if !duplicates {
            seen' := seen' + {row[j]};
          }
        } else {
          assert seen' + {row[j]} == seen';
        }
        assert duplicates ==> seen' == {};
      }
      assert row[..|row|] == row;
    }

    /** Shows all rows in the order of their ordinals. */
    method ShowAll() returns (shown: seq<Entry>, ghost l: seq<Entry>)
      requires IndicesExact()
      ensures IsListing(l, bag) && shown == Visible(l, duplicates)
    {
      var m := elementsPerOrdinal;
      var keys := SortedKeys(m);
      shown, l := [], [];
      var seen: set<string> := {};
      EmptyList(m);
      ShowNext([], Entry("", ""), duplicates);
      hide ListsKeys, AM.Ascending, AM.Count, Visible, Hidden, IsListing;
      for i := 0 to |keys|
        invariant ListsKeys(l, m, keys[..i])
        invariant shown == Visible(l, duplicates) && seen == Hidden(l, duplicates)
      {
        KeysIncrease(keys, m.Keys, i);
        assert keys[i] in multiset(keys);
        ListsNextKey(l, m, keys[..i], keys[i]);
        assert keys[..i + 1] == keys[..i] + [keys[i]];
        shown, seen := ShowRow(keys[i], m[keys[i]], duplicates, shown, seen, l);
        l := l + RowEntries(keys[i], m[keys[i]]);
      }
      assert keys[..|keys|] == keys;
      ListsAllKeys(l, m, keys, bag);
    }

    method Rebuild()
      requires Valid()
      modifies `entries, `needToRebuild
      ensures Valid() && !needToRebuild && IsContents(entries, bag, duplicates)
    {
      hide Index, IsBagOf, Records, AreElements, Visible, IsListing;
      if needToRebuild {
        ghost var l;
        entries, l := ShowAll();
        needToRebuild := false;
        assert IsContents(entries, bag, duplicates);
      }
    }

    // ----- writing -----

    /** Inserts one element; without duplicates its older insert ops are deleted. */
    method InsertElement(element: string, ordinal: Ordinal, id: Hash)
      requires Valid() && IsOrdinal(ordinal) && id !in live
      modifies this
      ensures Valid() && live.Keys <= old(live).Keys + {id}
      ensures duplicates ==> bag == old(bag) + multiset{Entry(ordinal, element)}
      ensures !duplicates ==> IsReplaced(old(bag), Entry(ordinal, element), bag)
      ensures elements == old(elements) + {element}
    {
      hide Index, Records, IsBagOf, IsContents, AreElements, AfterDelete, IsReplaced;
      var oldInsertionOps: set<Hash> := {};
      if !duplicates {
        oldInsertionOps := Get(currentInsertOpRefs, element);
      }
      OldOpsAreLive(element, oldInsertionOps);
      MutateInsert(id, element, ordinal);
      AfterNone(live, element);
      if oldInsertionOps != {} {
        MutateDelete(element, oldInsertionOps);
      }
      ElementsAfterMove(old(live), id, Entry(ordinal, element), oldInsertionOps, old(elements), elements);
      if !duplicates {
        BagAfterMove(old(bag), old(live), id, Entry(ordinal, element), oldInsertionOps, bag);
      }
    }

    lemma OldOpsAreLive(element: string, ids: set<Hash>)
      requires Valid() && ids <= Get(currentInsertOpRefs, element)
      ensures ids <= live.Keys
      ensures ids == Get(currentInsertOpRefs, element) ==>
                forall id :: id in ids <==> id in live && live[id].element == element
    {
    }

    /** In the case without duplicates, elements that move from before `idx` are counted,
        since they leave their old positions. */
    method AdjustedIndex(news: seq<string>, idx: nat) returns (adjusted: nat)
      ensures adjusted == idx + if duplicates then 0 else MovedUpTo(entries, news, idx)
    {
      hide MovedUpTo;
      var delta := 0;
      if !duplicates {
        NoneMoved(entries, idx);
        for i := 0 to |news|
          invariant delta == MovedUpTo(entries, news[..i], idx)
        {
          assert news[..i + 1] == news[..i] + [news[i]];
          OneMoreMoved(entries, news[..i], news[i], idx);
          if exists j :: 0 <= j < |entries| && j <= idx && entries[j].element == news[i] {
            delta := delta + 1;
          }
        }
        assert news[..|news|] == news;
      }
      adjusted := idx + delta;
    }

    lemma NeighboursOrdered(idx: nat)
      requires Valid() && !needToRebuild
      ensures ValidBounds(After(entries, idx), Before(entries, idx))
      ensures !Reversed(After(entries, idx), Before(entries, idx))
      ensures Shared(After(entries, idx), Before(entries, idx)) <==> SharedOrdinal(entries, idx)
    {
      hide Less, IsOrdinal, Index, IsBagOf, Records, AreElements, IsContents, Ordered;
      ContentsOrdered(entries, bag, duplicates);
      forall i | 0 <= i < |entries|
        ensures IsOrdinal(entries[i].ordinal)
      {
        LiveEntriesAreOrdinals(entries[i]);
      }
      OrderedNeighbours(entries, idx);
    }

    lemma LiveEntriesAreOrdinals(e: Entry)
      requires Valid() && e in bag
      ensures IsOrdinal(e.ordinal)
    {
      assert |Holders(live, e)| > 0;
      assert Holders(live, e) != {};
      var id :| id in Holders(live, e);
    }

    /** Inserts `news` one after the other between two bounds. */
    method InsertBetween(news: seq<string>, lowest: Option<Ordinal>, before: Option<Ordinal>, ids: seq<Hash>)
      returns (ok: bool, ghost added: seq<Entry>)
      requires Valid() && |ids| == |news| && AreFresh(ids, live.Keys)
      requires ValidBounds(lowest, before) && !Reversed(lowest, before)
      modifies this
      ensures Valid()
      ensures ok <==> |news| <= 1 || !Shared(lowest, before)
      ensures ok ==> elements == old(elements) + Members(news)
      ensures ok && duplicates ==> bag == old(bag) + multiset(added)
      ensures ok && !duplicates ==> IsMoved(old(bag), added, bag)
      ensures ok && !Shared(lowest, before) ==> ChainBetween(added, news, lowest, before)
    {
      hide Valid, IsChain, ChainBetween, Less, IsOrdinal, IsBetween, Reversed, Shared, Members, AreFresh;
      hide IsMoved, IsReplaced;
      var after := lowest;
      added := [];
      NothingMoved(bag);
      ghost var known := live.Keys;
      ChainStart(news, lowest, before);
      for i := 0 to |news|
        invariant Valid() && live.Keys <= known + Members(ids[..i])
        invariant elements == old(elements) + Members(news[..i])
        invariant ValidBounds(after, before)
        invariant IsChain(added, news[..i], lowest, before, after)
        invariant duplicates ==> bag == old(bag) + multiset(added)
        invariant !duplicates ==> IsMoved(old(bag), added, bag)
      {
        ChainGoesOn(added, news, i, lowest, before, after);
        var ordinal := Between(after, before);
        if ordinal.None? {
          return false, added;
        }
        NextMember(news, i);
        NextMember(ids, i);
        FreshAt(ids, known, i);
        ghost var had := bag;
        InsertElement(news[i], ordinal.value, ids[i]);
        if !duplicates {
          MovedOneMore(old(bag), added, had, Entry(ordinal.value, news[i]), bag);
        }
        ChainStep(added, news[..i], lowest, before, after, ordinal.value, news[i]);
        added := added + [Entry(ordinal.value, news[i])];
        after := ordinal;
      }
      ok := true;
      ChainDone(added, news, lowest, before, after);
    }

    /** Inserts `news` before position `idx`; `ids` are the hashes of the new insert ops.
        Fails, like the source, when it meets reversed neighbours: that is, when two or more
        elements go between two entries that share one ordinal. With duplicates, distinct
        neighbours and a position inside the array, the contents are spliced exactly. Without,
        the elements leave their old positions, and come to be where the adjusted position was. */
    method InsertManyAt(news: seq<string>, idx: nat, ids: seq<Hash>) returns (ok: bool)
      requires Valid() && |ids| == |news| && AreFresh(ids, live.Keys)
      modifies this
      ensures Valid()
      ensures ok ==> elements == old(elements) + Members(news)
      ensures duplicates ==> forall l :: IsListing(l, old(bag)) ==>
                (ok <==> |news| <= 1 || !SharedOrdinal(l, idx)) &&
                (idx <= |l| && !SharedOrdinal(l, idx) ==> Spliced(l, idx, news, bag)) &&
                (idx > |l| ==> AddedAnywhere(old(bag), news, bag, true))
      ensures !duplicates ==> forall l :: IsListing(l, old(bag)) ==>
                var shown := FirstOnly(l);
                var at := idx + MovedUpTo(shown, news, idx);
                (ok <==> |news| <= 1 || !SharedOrdinal(shown, at)) &&
                (at <= |shown| && !SharedOrdinal(shown, at) ==> MovedTo(shown, at, news, bag)) &&
                (at > |shown| ==> AddedAnywhere(old(bag), news, bag, false))
    {
      hide Valid, IsBetween, Less, IsOrdinal, IsListing, IsContents, ChainBetween, Spliced, Shared, SharedOrdinal,
           Reversed, AreFresh, Members, IsMoved, MovedTo, FirstOnly, MovedUpTo, AddedAnywhere;
      Rebuild();
      var at := AdjustedIndex(news, idx);
      NeighboursOrdered(at);
      ghost var shown := entries;
      ghost var added;
      ok, added := InsertBetween(news, After(entries, at), Before(entries, at), ids);
      if at > |shown| {
        NoNeighbours(shown, at);
        AddedBeyondEnd(old(bag), news, added, bag, duplicates);
      }
      if duplicates {
        SpliceEffect(shown, idx, news, added, old(bag), bag);
      } else {
        MoveEffect(shown, at, news, added, old(bag), bag);
      }
    }

    /** An insert op of `hash` at `ordinal`, if there is one in force. */
    method FindInsertOp(hash: string, ordinal: Ordinal) returns (found: Option<Hash>)
      requires Valid()
      ensures found.Some? ==> found.value in live && live[found.value] == Entry(ordinal, hash)
      ensures found.None? ==> Holders(live, Entry(ordinal, hash)) == {}
    {
      hide Index, IsBagOf, IsContents, AreElements, IsOrdinal;
      var insertOpRefs := Get(currentInsertOpRefs, hash);
      var todo := insertOpRefs;
      while todo != {}
        invariant todo <= insertOpRefs
        invariant forall id :: id in insertOpRefs - todo ==> currentInsertOpOrds[id] != ordinal
        decreases |todo|
      {
        var ref :| ref in todo;
        todo := todo - {ref};
        assert (hash, ref) in currentInsertOpRefs;
        if currentInsertOpOrds[ref] == ordinal {
          return Some(ref);
        }
      }
      assert forall id :: id in live && live[id].element == hash ==> id in insertOpRefs;
      assert Holders(live, Entry(ordinal, hash)) == {};
      found := None;
    }

    /** Deletes one occurrence of an element at an ordinal, or all its occurrences. */
    method Delete(hash: string, ordinal: Option<Ordinal>)
      requires Valid()
      modifies this
      ensures Valid()
      ensures ordinal.Some? ==> bag == old(bag) - multiset{Entry(ordinal.value, hash)}
      ensures ordinal.None? ==> IsBagWithout(old(bag), {hash}, bag)
    {
      hide Index, Records, AreElements, IsContents, AfterDelete, IsBagOf, Holders, IsBagWithout;
      ghost var before, beforeBag := live, bag;
      if ordinal.Some? {
        var found := FindInsertOp(hash, ordinal.value);
        if found.Some? {
          MutateDelete(hash, {found.value});
          BagAfterOne(beforeBag, before, found.value, bag);
        } else {
          BagHasNone(beforeBag, before, Entry(ordinal.value, hash));
        }
      } else {
        var insertOpRefs := Get(currentInsertOpRefs, hash);
        RefsAreAll(hash);
        AfterNone(live, hash);
        if insertOpRefs != {} {
          MutateDelete(hash, insertOpRefs);
        }
        BagAfterAll(beforeBag, before, hash, insertOpRefs, bag);
      }
    }

    lemma RefsAreAll(hash: string)
      requires Valid()
      ensures forall id :: id in live && live[id].element == hash ==> id in Get(currentInsertOpRefs, hash)
    {
    }

    /** Deletes up to `count` elements from position `idx` on: exactly that slice goes. The
        positions are those of the arrays cached before the first deletion. */
    method DeleteManyAt(idx: nat, count: nat)
      requires Valid()
      modifies this
      ensures Valid()
      ensures forall l :: IsListing(l, old(bag)) ==> IsCut(Visible(l, duplicates), idx, count, bag, duplicates)
    {
      hide Valid, IsContents, Trimmed, IsCut, IsListing, Visible;
      Rebuild();
      var shown := entries;
      var k, left := idx, count;
      ghost var start := bag;
      ghost var lo := Clamp(idx, shown);
      NothingTrimmed(start, shown, lo, duplicates);
      while k < |shown| && left > 0
        invariant Valid() && idx <= k && k + left == idx + count
        invariant lo == Clamp(idx, shown) && lo <= Clamp(k, shown)
        invariant Trimmed(start, shown, lo, Clamp(k, shown), duplicates, bag)
        decreases left
      {
        ghost var before := bag;
        if duplicates {
          Delete(shown[k].element, Some(shown[k].ordinal));
        } else {
          Delete(shown[k].element, None);
        }
        TrimmedOneMore(start, shown, lo, k, duplicates, before, bag);
        k := k + 1;
        left := left - 1;
      }
      assert Clamp(k, shown) == Clamp(idx + count, shown);
      TrimEffect(start, shown, idx, count, duplicates, bag);
    }
  }
}
