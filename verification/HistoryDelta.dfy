/** The ops that lead from some headers to others, found by going back from both ends. */
module HistoryDeltas {
  import opened Hashing
  import opened FiniteSets
  import opened OpHeaders
  import opened HistoryFragments
  import opened HistoryWalks
  import opened HistoryClosures
  import opened CausalSchedules
  import opened CausalWalks

  ghost predicate PrevClosed(store: set<Header>) {
    forall h, p :: h in store && p in h.prevs ==> p in store
  }

  /** What the search keeps, from where it began: the two fragments are apart, and have not
      lost a header that they began with; beyond that they keep to their limits and hold only
      what is on a way back from there. */
  ghost predicate IsSearch(store: set<Header>, start0: set<Header>, delta0: set<Header>,
                           start: set<Header>, delta: set<Header>, maxDeltaSize: nat, maxBacktrackSize: nat) {
    && start !! delta && start + delta <= store
    && start0 <= start && delta0 <= start + delta
    && (|start| <= maxBacktrackSize || start == start0)
    && (|delta| <= maxDeltaSize || delta <= delta0)
    && IsBackOf(start, start0) && IsBackOf(delta, delta0)
  }

  /** Some headers are on ways back from others. */
  ghost predicate IsBackOf(hs: set<Header>, from: set<Header>) {
    forall h :: h in hs ==> IsLoadable(h, from, {})
  }

  /** What a fragment misses is further back. */
  lemma MissingIsBack(missing: set<Header>, contents: set<Header>, from: set<Header>)
    requires ExactMissing(missing, contents) && IsBackOf(contents, from)
    ensures IsBackOf(missing, from)
  {
    forall m | m in missing
      ensures IsLoadable(m, from, {})
    {
      var n :| IsNextIn(m, n, contents);
      assert IsLoadable(n, from, {});
      var t :| t in from && LeadsBack(n, t, {});
      LeadsFurtherBack(m, n, t, {});
    }
  }

  lemma SearchIsApart(store: set<Header>, start0: set<Header>, delta0: set<Header>,
                      start: set<Header>, delta: set<Header>, maxDeltaSize: nat, maxBacktrackSize: nat)
    requires IsSearch(store, start0, delta0, start, delta, maxDeltaSize, maxBacktrackSize)
    ensures start !! delta && start + delta <= store && IsBackOf(start, start0) && IsBackOf(delta, delta0)
  {
  }

  lemma SearchGoesOn(store: set<Header>, start0: set<Header>, delta0: set<Header>,
                     start: set<Header>, delta: set<Header>, start': set<Header>, mid: set<Header>, delta': set<Header>,
                     maxDeltaSize: nat, maxBacktrackSize: nat)
    requires IsSearch(store, start0, delta0, start, delta, maxDeltaSize, maxBacktrackSize)
    requires start <= start' && mid <= delta <= mid + start' && mid <= delta'
    requires start' !! delta' && start' + delta' <= store
    requires |start'| <= maxBacktrackSize || start' == start
    requires |delta'| <= maxDeltaSize || delta' == mid
    requires IsBackOf(start' - start, start0) && IsBackOf(delta' - mid, delta0)
    ensures IsSearch(store, start0, delta0, start', delta', maxDeltaSize, maxBacktrackSize)
  {
    hide IsLoadable;
    SubsetIsSmaller(mid, delta);
  }

  predicate IsAbove(s: Header, h: Option<nat>) {
    h.Some? && s.height > h.value
  }

  /** A header is above one at which a fragment starts. */
  ghost predicate IsAboveSome(s: Header, contents: set<Header>) {
    exists t :: IsStartingIn(t, contents) && t.height < s.height
  }

  /** Some missing headers above a height have moved to the start, and out of the fragment. */
  ghost predicate HasMoved(start: set<Header>, start': set<Header>, delta: set<Header>, delta': set<Header>,
                           missing: set<Header>, store: set<Header>, h: Option<nat>, maxBacktrackSize: nat) {
    && start <= start' && delta' <= delta <= delta' + start'
    && (start' == start ==> delta' == delta)
    && (|start'| <= maxBacktrackSize || start' == start)
    && (forall s :: s in start' - start ==> s in missing && s in store && IsAbove(s, h))
  }

  lemma NothingMoved(start: set<Header>, delta: set<Header>, missing: set<Header>, store: set<Header>, h: Option<nat>,
                     maxBacktrackSize: nat)
    ensures HasMoved(start, start, delta, delta, missing, store, h, maxBacktrackSize)
  {
  }

  lemma MovedOnly(start: set<Header>, start': set<Header>, delta: set<Header>, delta': set<Header>,
                  missing: set<Header>, store: set<Header>, h: Option<nat>, maxBacktrackSize: nat)
    requires HasMoved(start, start', delta, delta', missing, store, h, maxBacktrackSize)
    ensures start != start' ==> |start| < maxBacktrackSize && exists s :: s in missing && s in store && IsAbove(s, h)
  {
    SubsetIsSmaller(start, start');
    if start != start' {
      var s :| s in start' && s !in start;
      assert s in start' - start;
    }
  }

  lemma MovesOneMore(start: set<Header>, start': set<Header>, delta: set<Header>, delta': set<Header>,
                     missing: set<Header>, store: set<Header>, h: Option<nat>, maxBacktrackSize: nat, op: Header)
    requires HasMoved(start, start', delta, delta', missing, store, h, maxBacktrackSize)
    requires op in missing && op in store && IsAbove(op, h) && op !in start' && |start'| < maxBacktrackSize
    ensures HasMoved(start, start' + {op}, delta, delta' - {op}, missing, store, h, maxBacktrackSize)
  {
  }

  /** The start has gone back: it was joined only by stored headers that it missed and that are
      above one where the fragment starts, by all of these unless it is full now, and the
      fragment has lost exactly what is in the start. */
  ghost predicate HasBacktracked(store: set<Header>, start: set<Header>, delta: set<Header>, start': set<Header>,
                                 delta': set<Header>, maxBacktrackSize: nat) {
    && start <= start' && delta' == delta - start'
    && (forall s :: s in start' - start ==> s in store && IsMissingIn(s, start) && IsAboveSome(s, delta))
    && (|start'| < maxBacktrackSize ==>
          forall s :: s in store && IsMissingIn(s, start) && IsAboveSome(s, delta) ==> s in start')
    && (|start'| <= maxBacktrackSize || start' == start)
  }

  /** The fragment has gone back: it was joined only by stored headers that it missed and that
      are not in the start, and by all of these unless it is full now. */
  ghost predicate HasExtended(store: set<Header>, start: set<Header>, delta: set<Header>, delta': set<Header>,
                              maxDeltaSize: nat) {
    && delta <= delta'
    && (forall d :: d in delta' - delta ==> d in store && IsMissingIn(d, delta) && d !in start)
    && (|delta'| < maxDeltaSize ==> forall d :: d in store && IsMissingIn(d, delta) ==> d in start + delta')
    && (|delta'| <= maxDeltaSize || delta' == delta)
  }

  /** What the search has found at some time. */
  datatype Stage = Stage(start: set<Header>, delta: set<Header>)

  /** A round: first the start goes back, and then what is left of the fragment. */
  ghost predicate IsRound(store: set<Header>, before: Stage, after: Stage, maxDeltaSize: nat, maxBacktrackSize: nat) {
    && HasBacktracked(store, before.start, before.delta, after.start, before.delta - after.start, maxBacktrackSize)
    && HasExtended(store, after.start, before.delta - after.start, after.delta, maxDeltaSize)
  }

  /** There is room in the fragment, and something missing from it that is not in the start. */
  ghost predicate GoesOn(stage: Stage, maxDeltaSize: nat) {
    |stage.delta| < maxDeltaSize && exists m :: IsMissingIn(m, stage.delta) && m !in stage.start
  }

  /** Rounds, one after the other, while there is reason for one. */
  ghost predicate IsRun(store: set<Header>, stages: seq<Stage>, maxDeltaSize: nat, maxBacktrackSize: nat) {
    && stages != []
    && forall i :: 0 <= i < |stages| - 1 ==>
         GoesOn(stages[i], maxDeltaSize) && IsRound(store, stages[i], stages[i + 1], maxDeltaSize, maxBacktrackSize)
  }

  lemma OneMoreRound(store: set<Header>, stages: seq<Stage>, stage: Stage, maxDeltaSize: nat, maxBacktrackSize: nat)
    requires IsRun(store, stages, maxDeltaSize, maxBacktrackSize) && GoesOn(stages[|stages| - 1], maxDeltaSize)
    requires IsRound(store, stages[|stages| - 1], stage, maxDeltaSize, maxBacktrackSize)
    ensures IsRun(store, stages + [stage], maxDeltaSize, maxBacktrackSize)
  {
    hide IsRound, GoesOn;
  }

  lemma RoundKeepsStart(store: set<Header>, before: Stage, after: Stage, maxDeltaSize: nat, maxBacktrackSize: nat)
    requires IsRound(store, before, after, maxDeltaSize, maxBacktrackSize)
    ensures before.start <= after.start
  {
  }

  lemma GapMeansMore(gap: set<Header>, missing: set<Header>, stage: Stage, maxDeltaSize: nat)
    requires ExactMissing(missing, stage.delta) && gap == missing - stage.start
    requires gap != {} && |stage.delta| < maxDeltaSize
    ensures GoesOn(stage, maxDeltaSize)
  {
    var m :| m in gap;
    assert IsMissingIn(m, stage.delta);
  }

  lemma RoundIsMade(store: set<Header>, before: Stage, after: Stage, missing: set<Header>, h: Option<nat>,
                    mid: set<Header>, nextMissing: set<Header>, maxDeltaSize: nat, maxBacktrackSize: nat)
    requires before.start !! before.delta && after.start !! mid && after.start !! after.delta && after.delta <= store
    requires HasMoved(before.start, after.start, before.delta, mid, missing, store, h, maxBacktrackSize)
    requires ExactMissing(missing, before.start) && forall s :: IsAbove(s, h) <==> IsAboveSome(s, before.delta)
    requires |after.start| < maxBacktrackSize ==>
               forall s :: s in missing && s in store && IsAbove(s, h) ==> s in after.start
    requires ExactMissing(nextMissing, mid) && mid <= after.delta && after.delta - mid <= nextMissing
    requires |after.delta| <= maxDeltaSize || after.delta == mid
    requires |after.delta| < maxDeltaSize ==> nextMissing * store <= after.start + after.delta
    ensures IsRound(store, before, after, maxDeltaSize, maxBacktrackSize)
  {
    hide IsAbove, IsAboveSome, IsMissingIn;
    assert mid == before.delta - after.start;
  }

  class HistoryDelta {
    const fragment: HistoryFragment
    const start: HistoryFragment
    var gap: set<Header>

    ghost predicate Valid()
      reads this, fragment, start
    {
      fragment != start && fragment.Valid() && start.Valid()
    }

    ghost predicate GapIsExact()
      reads this, fragment, start
    {
      gap == fragment.missingPrevOpHeaders - start.contents
    }

    constructor ()
      ensures Valid() && fresh(fragment) && fresh(start) && fragment.contents == {} && start.contents == {}
    {
      fragment := new HistoryFragment();
      start := new HistoryFragment();
      gap := {};
    }

    method UpdateGap()
      modifies `gap
      ensures GapIsExact()
    {
      gap := set h | h in fragment.missingPrevOpHeaders && h !in start.contents;
    }

    /** Takes the headers to start from out of the store. */
    method AddStarting(store: set<Header>, startingOpHeaders: seq<Header>)
      requires Valid() && start.contents !! fragment.contents && start.contents + fragment.contents <= store
      modifies fragment, start
      ensures Valid() && start.contents !! fragment.contents && start.contents + fragment.contents <= store
      ensures forall h :: h in start.contents <==> h in old(start.contents) || (h in startingOpHeaders && h in store)
      ensures fragment.contents == old(fragment.contents) - start.contents
    {
      hide HistoryFragment.Valid;
      var i := 0;
      while i < |startingOpHeaders|
        invariant i <= |startingOpHeaders| && Valid()
        invariant start.contents !! fragment.contents && start.contents + fragment.contents <= store
        invariant fragment.contents == old(fragment.contents) - start.contents
        invariant forall h :: h in start.contents <==>
                    h in old(start.contents) || (h in startingOpHeaders[..i] && h in store)
      {
        var h := startingOpHeaders[i];
        assert startingOpHeaders[..i + 1] == startingOpHeaders[..i] + [h];
        if h in store {
          start.Add(h);
          fragment.Remove(h);
        }
        i := i + 1;
      }
      assert startingOpHeaders[..i] == startingOpHeaders;
    }

    method AddTargets(store: set<Header>, targetOpHeaders: seq<Header>)
      requires Valid() && start.contents !! fragment.contents && start.contents + fragment.contents <= store
      modifies fragment
      ensures Valid() && start.contents !! fragment.contents && start.contents + fragment.contents <= store
      ensures forall h :: h in fragment.contents <==>
                h in old(fragment.contents) || (h in targetOpHeaders && h in store && h !in start.contents)
    {
      hide HistoryFragment.Valid;
      var i := 0;
      while i < |targetOpHeaders|
        invariant i <= |targetOpHeaders| && Valid()
        invariant start.contents !! fragment.contents && start.contents + fragment.contents <= store
        invariant forall h :: h in fragment.contents <==>
                    h in old(fragment.contents) || (h in targetOpHeaders[..i] && h in store && h !in start.contents)
      {
        var h := targetOpHeaders[i];
        assert targetOpHeaders[..i + 1] == targetOpHeaders[..i] + [h];
        if h !in start.contents && h in store {
          fragment.Add(h);
        }
        i := i + 1;
      }
      assert targetOpHeaders[..i] == targetOpHeaders;
    }

    /** The lowest height at which the fragment starts. */
    method LowestStart() returns (h: Option<nat>)
      requires Valid()
      ensures h.Some? ==> exists s :: IsStartingIn(s, fragment.contents) && s.height == h.value
      ensures forall s :: IsStartingIn(s, fragment.contents) ==> h.Some? && h.value <= s.height
    {
      hide IsStartingIn;
      var rest := fragment.GetStartingOpHeaders();
      ghost var all := rest;
      h := None;
      while rest != {}
        invariant rest <= all
        invariant h.Some? ==> exists s :: s in all && s.height == h.value
        invariant forall s :: s in all - rest ==> h.Some? && h.value <= s.height
      {
        var s :| s in rest;
        if h.None? || s.height < h.value {
          h := Some(s.height);
        }
        rest := rest - {s};
      }
      assert all - rest == all;
    }

    method MoveToStart(op: Header)
      requires Valid()
      modifies fragment, start
      ensures Valid() && start.contents == old(start.contents) + {op}
      ensures fragment.contents == old(fragment.contents) - {op}
    {
      hide HistoryFragment.Valid;
      start.Add(op);
      fragment.Remove(op);
    }

    /** Goes back from the start, but only to headers above where the fragment starts, and to
        all of these if there is room. */
    method Backtrack(store: set<Header>, h: Option<nat>, maxBacktrackSize: nat)
      requires Valid() && start.contents !! fragment.contents && start.contents + fragment.contents <= store
      modifies fragment, start
      ensures Valid() && start.contents !! fragment.contents && start.contents + fragment.contents <= store
      ensures HasMoved(old(start.contents), start.contents, old(fragment.contents), fragment.contents,
                       old(start.missingPrevOpHeaders), store, h, maxBacktrackSize)
      ensures |start.contents| < maxBacktrackSize ==>
                forall s :: s in old(start.missingPrevOpHeaders) && s in store && IsAbove(s, h) ==> s in start.contents
      ensures start.contents == old(start.contents) <==>
              |old(start.contents)| >= maxBacktrackSize ||
              forall s :: s in old(start.missingPrevOpHeaders) && s in store ==> !IsAbove(s, h)
    {
      hide HistoryFragment.Valid, HasMoved;
      var rest := start.missingPrevOpHeaders;
      MissingIsAbsent(start);
      NothingMoved(start.contents, fragment.contents, start.missingPrevOpHeaders, store, h, maxBacktrackSize);
      while rest != {} && |start.contents| < maxBacktrackSize
        invariant Valid() && rest <= old(start.missingPrevOpHeaders) && rest !! start.contents
        invariant start.contents !! fragment.contents && start.contents + fragment.contents <= store
        invariant HasMoved(old(start.contents), start.contents, old(fragment.contents), fragment.contents,
                           old(start.missingPrevOpHeaders), store, h, maxBacktrackSize)
        invariant forall s :: s in old(start.missingPrevOpHeaders) - rest && s in store && IsAbove(s, h) ==>
                    s in start.contents
        invariant start.contents == old(start.contents) ==>
                    forall s :: s in old(start.missingPrevOpHeaders) - rest && s in store ==> !IsAbove(s, h)
      {
        var op :| op in rest;
        rest := rest - {op};
        if op in store && IsAbove(op, h) {
          MovesOneMore(old(start.contents), start.contents, old(fragment.contents), fragment.contents,
                       old(start.missingPrevOpHeaders), store, h, maxBacktrackSize, op);
          MoveToStart(op);
        }
      }
      MovedOnly(old(start.contents), start.contents, old(fragment.contents), fragment.contents,
                old(start.missingPrevOpHeaders), store, h, maxBacktrackSize);
    }

    /** Goes back from the fragment. */
    method Extend(store: set<Header>, maxDeltaSize: nat)
      requires Valid() && start.contents !! fragment.contents && start.contents + fragment.contents <= store
      modifies fragment
      ensures Valid() && start.contents !! fragment.contents && start.contents + fragment.contents <= store
      ensures old(fragment.contents) <= fragment.contents
      ensures |fragment.contents| <= maxDeltaSize || fragment.contents == old(fragment.contents)
      ensures fragment.contents - old(fragment.contents) <= old(fragment.missingPrevOpHeaders)
      ensures |old(fragment.contents)| < maxDeltaSize && fragment.contents == old(fragment.contents) ==>
                old(fragment.missingPrevOpHeaders) * store <= start.contents
      ensures |fragment.contents| < maxDeltaSize ==>
                old(fragment.missingPrevOpHeaders) * store <= start.contents + fragment.contents
    {
      hide HistoryFragment.Valid;
      var rest := fragment.missingPrevOpHeaders;
      MissingIsAbsent(fragment);
      while rest != {} && |fragment.contents| < maxDeltaSize
        invariant Valid() && rest <= old(fragment.missingPrevOpHeaders)
        invariant start.contents !! fragment.contents && start.contents + fragment.contents <= store
        invariant old(fragment.contents) <= fragment.contents
        invariant rest !! fragment.contents
        invariant |fragment.contents| <= maxDeltaSize || fragment.contents == old(fragment.contents)
        invariant fragment.contents - old(fragment.contents) <= old(fragment.missingPrevOpHeaders)
        invariant fragment.contents == old(fragment.contents) ==>
                    (old(fragment.missingPrevOpHeaders) - rest) * store <= start.contents
        invariant (old(fragment.missingPrevOpHeaders) - rest) * store <= start.contents + fragment.contents
      {
        var h :| h in rest;
        rest := rest - {h};
        if h !in start.contents && h in store {
          fragment.Add(h);
        }
      }
    }

    lemma MissingIsAbsent(f: HistoryFragment)
      requires f.Valid()
      ensures f.missingPrevOpHeaders !! f.contents
    {
    }

    /** There is nothing to go back to: from the start no stored header above where the
        fragment starts, or no room for it, and from the fragment none outside of the start. */
    ghost predicate MakesNoProgress(store: set<Header>, maxBacktrackSize: nat)
      reads this, fragment, start
    {
      && (|start.contents| < maxBacktrackSize ==>
            forall s :: s in start.missingPrevOpHeaders && s in store ==> !IsAboveSome(s, fragment.contents))
      && fragment.missingPrevOpHeaders * store <= start.contents
    }

    /** The loop goes on without making progress. */
    ghost predicate IsStuck(store: set<Header>, maxDeltaSize: nat, maxBacktrackSize: nat)
      reads this, fragment, start
    {
      gap != {} && |fragment.contents| < maxDeltaSize && MakesNoProgress(store, maxBacktrackSize)
    }

    /** One round of the search. If there is room for more it changes nothing exactly when there
        is nothing to go back to; and if nothing has changed, nothing will in the next round. */
    method Advance(store: set<Header>, maxDeltaSize: nat, maxBacktrackSize: nat,
                   ghost start0: set<Header>, ghost delta0: set<Header>)
      requires Valid() && GapIsExact()
      requires IsSearch(store, start0, delta0, start.contents, fragment.contents, maxDeltaSize, maxBacktrackSize)
      modifies this, fragment, start
      ensures Valid() && GapIsExact()
      ensures IsSearch(store, start0, delta0, start.contents, fragment.contents, maxDeltaSize, maxBacktrackSize)
      ensures IsRound(store, Stage(old(start.contents), old(fragment.contents)),
                      Stage(start.contents, fragment.contents), maxDeltaSize, maxBacktrackSize)
      ensures start.contents == old(start.contents) ==> old(fragment.contents) <= fragment.contents
      ensures |old(fragment.contents)| < maxDeltaSize ==>
                (start.contents == old(start.contents) && fragment.contents == old(fragment.contents) <==>
                 old(MakesNoProgress(store, maxBacktrackSize)))
      ensures old(IsStuck(store, maxDeltaSize, maxBacktrackSize)) ==> IsStuck(store, maxDeltaSize, maxBacktrackSize)
    {
      hide HistoryFragment.Valid, IsStartingIn, ExactMissing, IsLoadable, IsSearch, IsAboveSome, IsRound;
      SearchIsApart(store, start0, delta0, start.contents, fragment.contents, maxDeltaSize, maxBacktrackSize);
      MissingIsExact(fragment);
      MissingIsExact(start);
      MissingIsBack(start.missingPrevOpHeaders, start.contents, start0);
      var h := LowestStart();
      AboveLowest(fragment.contents, h);
      Backtrack(store, h, maxBacktrackSize);
      ghost var mid, midMissing := fragment.contents, fragment.missingPrevOpHeaders;
      MissingIsExact(fragment);
      MissingIsBack(fragment.missingPrevOpHeaders, mid, delta0);
      MissingIsDecided(old(fragment.missingPrevOpHeaders), old(fragment.contents), fragment.missingPrevOpHeaders, mid);
      Extend(store, maxDeltaSize);
      SearchGoesOn(store, start0, delta0, old(start.contents), old(fragment.contents),
                   start.contents, mid, fragment.contents, maxDeltaSize, maxBacktrackSize);
      RoundIsMade(store, Stage(old(start.contents), old(fragment.contents)), Stage(start.contents, fragment.contents),
                  old(start.missingPrevOpHeaders), h, mid, midMissing, maxDeltaSize, maxBacktrackSize);
      UpdateGap();
      MissingIsExact(fragment);
      MissingIsExact(start);
      MissingIsDecided(old(fragment.missingPrevOpHeaders), old(fragment.contents),
                       fragment.missingPrevOpHeaders, fragment.contents);
      MissingIsDecided(old(start.missingPrevOpHeaders), old(start.contents),
                       start.missingPrevOpHeaders, start.contents);
    }

    /** A search that makes no progress never does: it is the same after any number of rounds. */
    method Rounds(store: set<Header>, maxDeltaSize: nat, maxBacktrackSize: nat, n: nat,
                  ghost start0: set<Header>, ghost delta0: set<Header>)
      requires Valid() && GapIsExact() && IsStuck(store, maxDeltaSize, maxBacktrackSize)
      requires IsSearch(store, start0, delta0, start.contents, fragment.contents, maxDeltaSize, maxBacktrackSize)
      modifies this, fragment, start
      ensures Valid() && GapIsExact() && IsStuck(store, maxDeltaSize, maxBacktrackSize)
      ensures start.contents == old(start.contents) && fragment.contents == old(fragment.contents)
    {
      hide HistoryFragment.Valid, IsSearch, IsAboveSome;
      for i := 0 to n
        invariant Valid() && GapIsExact() && IsStuck(store, maxDeltaSize, maxBacktrackSize)
        invariant IsSearch(store, start0, delta0, start.contents, fragment.contents, maxDeltaSize, maxBacktrackSize)
        invariant start.contents == old(start.contents) && fragment.contents == old(fragment.contents)
      {
        Advance(store, maxDeltaSize, maxBacktrackSize, start0, delta0);
      }
    }

    lemma MissingIsExact(f: HistoryFragment)
      requires f.Valid()
      ensures ExactMissing(f.missingPrevOpHeaders, f.contents)
    {
    }

    /** A search over a store that holds all predecessors is never stuck. */
    lemma ProgressIsMade(store: set<Header>, maxDeltaSize: nat, maxBacktrackSize: nat)
      requires Valid() && GapIsExact() && PrevClosed(store) && fragment.contents <= store
      ensures !IsStuck(store, maxDeltaSize, maxBacktrackSize)
    {
      hide IsAboveSome;
      assert fragment.missingPrevOpHeaders <= store;
    }

    /** Goes back from the targets, and from the start as far as the heights say so, until the
        two meet or a limit is reached. The source looks at nothing else: where this ends for
        lack of progress, it goes on for ever. */
    method Compute(store: set<Header>, targetOpHeaders: seq<Header>, startingOpHeaders: seq<Header>,
                   maxDeltaSize: nat, maxBacktrackSize: nat)
      returns (ends: bool, ghost stages: seq<Stage>)
      requires Valid() && start.contents !! fragment.contents && start.contents + fragment.contents <= store
      modifies this, fragment, start
      ensures Valid() && GapIsExact()
      ensures ends ==> gap == {} || |fragment.contents| >= maxDeltaSize
      ensures !ends ==> IsStuck(store, maxDeltaSize, maxBacktrackSize)
      ensures PrevClosed(store) ==> ends
      ensures IsRun(store, stages, maxDeltaSize, maxBacktrackSize)
      ensures forall h :: h in stages[0].start <==> h in old(start.contents) || (h in startingOpHeaders && h in store)
      ensures forall h :: h in stages[0].delta <==>
                h !in stages[0].start && (h in old(fragment.contents) || (h in targetOpHeaders && h in store))
      ensures stages[|stages| - 1] == Stage(start.contents, fragment.contents)
      ensures IsSearch(store, stages[0].start, stages[0].delta, start.contents, fragment.contents,
                       maxDeltaSize, maxBacktrackSize)
    {
      hide HistoryFragment.Valid, PrevClosed, IsSearch, MakesNoProgress, IsRound, GoesOn, ExactMissing;
      AddStarting(store, startingOpHeaders);
      AddTargets(store, targetOpHeaders);
      UpdateGap();
      ghost var start0, delta0 := start.contents, fragment.contents;
      stages := [Stage(start0, delta0)];
      SearchBegins(store, start0, delta0, maxDeltaSize, maxBacktrackSize);
      ends := true;
      while gap != {} && |fragment.contents| < maxDeltaSize && ends
        invariant Valid() && GapIsExact()
        invariant IsSearch(store, start0, delta0, start.contents, fragment.contents, maxDeltaSize, maxBacktrackSize)
        invariant !ends ==> IsStuck(store, maxDeltaSize, maxBacktrackSize)
        invariant IsRun(store, stages, maxDeltaSize, maxBacktrackSize) && stages[0] == Stage(start0, delta0)
        invariant stages[|stages| - 1] == Stage(start.contents, fragment.contents)
        decreases store - start.contents, store - fragment.contents, ends
      {
        var was, had := start.contents, fragment.contents;
        MissingIsExact(fragment);
        GapMeansMore(gap, fragment.missingPrevOpHeaders, Stage(was, had), maxDeltaSize);
        Advance(store, maxDeltaSize, maxBacktrackSize, start0, delta0);
        OneMoreRound(store, stages, Stage(start.contents, fragment.contents), maxDeltaSize, maxBacktrackSize);
        RoundKeepsStart(store, Stage(was, had), Stage(start.contents, fragment.contents), maxDeltaSize,
                        maxBacktrackSize);
        stages := stages + [Stage(start.contents, fragment.contents)];
        ends := start.contents != was || fragment.contents != had;
        LessToSearch(store, start0, delta0, was, had, start.contents, fragment.contents,
                     maxDeltaSize, maxBacktrackSize);
      }
      SearchIsApart(store, start0, delta0, start.contents, fragment.contents, maxDeltaSize, maxBacktrackSize);
      if PrevClosed(store) {
        ProgressIsMade(store, maxDeltaSize, maxBacktrackSize);
      }
    }
  }

  /** Such a search begins with a new delta: the store has a header but not what it follows. */
  method DeltaWithoutEnd(h: Header, p: Header, maxDeltaSize: nat, maxBacktrackSize: nat)
    returns (ends: bool, delta: HistoryDelta)
    requires h.prevs == {p} && maxDeltaSize > 1
    ensures !ends && fresh(delta) && delta.IsStuck({h}, maxDeltaSize, maxBacktrackSize)
  {
    hide HistoryFragment.Valid, HistoryDelta.IsStuck, IsSearch, IsBackOf;
    delta := new HistoryDelta();
    ghost var stages;
    ends, stages := delta.Compute({h}, [h], [], maxDeltaSize, maxBacktrackSize);
    assert stages[0] == Stage({}, {h});
    OnlyTargetIsFound(h, delta.start.contents, delta.fragment.contents, maxDeltaSize, maxBacktrackSize);
    assert p in delta.fragment.missingPrevOpHeaders by { delta.MissingIsExact(delta.fragment); PrevIsMissing(h, p); }
  }

  lemma OnlyTargetIsFound(h: Header, start: set<Header>, delta: set<Header>, maxDeltaSize: nat, maxBacktrackSize: nat)
    requires IsSearch({h}, {}, {h}, start, delta, maxDeltaSize, maxBacktrackSize)
    ensures start == {} && delta == {h}
  {
    assert forall s :: s in start ==> !IsLoadable(s, {}, {});
    assert delta <= {h};
  }

  lemma PrevIsMissing(h: Header, p: Header)
    requires p in h.prevs
    ensures IsMissingIn(p, {h})
  {
    assert IsNextIn(p, h, {h});
  }

  ghost function StartingIn(contents: set<Header>): set<Header> {
    set h | h in contents && IsStartingIn(h, contents)
  }

  /** What whoever has the start can apply next, in an order in which that is possible: what a
      full walk from where the fragment starts schedules, up to the limit. Of a fragment that is
      steady, that is all unless the limit has been reached. */
  method OpHeadersFollowingFromStart(delta: HistoryDelta, maxOps: Option<nat>)
    returns (result: seq<Header>, ghost given: seq<Header>, ghost queues: seq<seq<Header>>)
    requires delta.Valid()
    ensures IsCausalList(result, delta.start.contents) && (maxOps.Some? ==> |result| <= maxOps.value)
    ensures forall h :: h in result ==> h in delta.fragment.contents
    ensures result == Schedule(Request(delta.fragment.contents, delta.start.contents, None, None), given).result
    ensures IsWalk(Ground(Forward, delta.fragment.contents, None), queues, given)
    ensures StartsFrom(Ground(Forward, delta.fragment.contents, None), StartingIn(delta.fragment.contents), queues)
    ensures maxOps == Some(|result|) || queues[|queues| - 1] == []
    ensures maxOps == Some(|result|) || forall dist ::
              IsSteadyFrom(delta.start.contents, delta.fragment.contents, dist) ==>
                forall h :: h in delta.fragment.contents ==> h in result
  {
    hide HistoryFragment.Valid, IsStartingIn, IsWalk, IsFullWalk, IsSteadyFrom, Schedule, IsCausalList, CountsFor;
    var starting := delta.fragment.GetStartingOpHeaders();
    StartingIsExact(starting, delta.fragment.contents);
    result, given, queues := CausalClosureFrom(delta.fragment, starting, delta.start.contents, maxOps, None, None);
    ghost var t := Request(delta.fragment.contents, delta.start.contents, None, None);
    CausalClosureIsSound(t, given);
    AllKept(t, Schedule(t, given).closed);
    if maxOps != Some(|result|) {
      FullWalkEnds(Ground(Forward, delta.fragment.contents, None), starting, queues, given);
    }
    forall dist | maxOps != Some(|result|) && IsSteadyFrom(delta.start.contents, delta.fragment.contents, dist)
      ensures forall h :: h in delta.fragment.contents ==> h in result
    {
      SteadyFragmentIsListed(t, dist, queues, given);
    }
  }

  lemma StartingIsExact(starting: set<Header>, contents: set<Header>)
    requires forall h :: h in starting <==> IsStartingIn(h, contents)
    ensures starting == StartingIn(contents)
  {
  }

  lemma FullWalkEnds(g: Ground, initial: set<Header>, queues: seq<seq<Header>>, given: seq<Header>)
    requires IsFullWalk(g, initial, queues, given)
    ensures |queues| == |given| + 1 && queues[|queues| - 1] == []
  {
    hide IsWalk, StartsFrom;
  }

  /** The fragment is steady if what is in the start counts as provided. */
  ghost predicate IsSteadyFrom(start: set<Header>, contents: set<Header>, dist: map<Header, nat>) {
    && IsDistance(Ground(Forward, contents, None), StartingIn(contents), dist)
    && IsSteady(Request(contents, start, None, None), dist, contents)
  }

  lemma SteadyFragmentIsListed(t: Request, dist: map<Header, nat>, queues: seq<seq<Header>>, given: seq<Header>)
    requires IsSteadyFrom(t.provided, t.contents, dist) && t == Request(t.contents, t.provided, None, None)
    requires IsFullWalk(Ground(Forward, t.contents, None), StartingIn(t.contents), queues, given)
    ensures forall h :: h in t.contents ==> h in Schedule(t, given).closed
  {
    hide IsDistance, IsSteady, IsFullWalk, Schedule, StartingIn;
    SteadyIsClosed(t, StartingIn(t.contents), dist, t.contents, queues, given);
  }

  lemma MissingIsDecided(m: set<Header>, c: set<Header>, n: set<Header>, d: set<Header>)
    requires ExactMissing(m, c) && ExactMissing(n, d)
    ensures c == d ==> m == n
  {
  }

  lemma AboveLowest(contents: set<Header>, h: Option<nat>)
    requires h.Some? ==> exists s :: IsStartingIn(s, contents) && s.height == h.value
    requires forall s :: IsStartingIn(s, contents) ==> h.Some? && h.value <= s.height
    ensures forall s :: IsAbove(s, h) <==> IsAboveSome(s, contents)
  {
    hide IsStartingIn;
  }

  lemma SearchBegins(store: set<Header>, start: set<Header>, delta: set<Header>, maxDeltaSize: nat,
                     maxBacktrackSize: nat)
    requires start !! delta && start + delta <= store
    ensures IsSearch(store, start, delta, start, delta, maxDeltaSize, maxBacktrackSize)
  {
    forall h | h in start + delta
      ensures LeadsBack(h, h, {})
    {
    }
  }

  lemma LessToSearch(store: set<Header>, start0: set<Header>, delta0: set<Header>,
                     start: set<Header>, delta: set<Header>, start': set<Header>, delta': set<Header>,
                     maxDeltaSize: nat, maxBacktrackSize: nat)
    requires start <= start' && (start == start' ==> delta <= delta')
    requires IsSearch(store, start0, delta0, start', delta', maxDeltaSize, maxBacktrackSize)
    ensures store - start' <= store - start
    ensures start != start' ==> store - start' < store - start
    ensures start == start' && delta != delta' ==> store - delta' < store - delta
  {
  }

  /** Once the gap is closed the delta holds all the ways back from its targets, each up to
      where it meets the start. */
  lemma DeltaReachesStart(d: HistoryDelta, t: Header, h: Header)
    requires d.Valid() && d.GapIsExact() && d.gap == {}
    requires t in d.fragment.contents && LeadsBack(h, t, d.start.contents)
    ensures h in d.fragment.contents
  {
    forall m | IsMissingIn(m, d.fragment.contents)
      ensures m in d.start.contents
    {
      assert m in d.fragment.missingPrevOpHeaders;
      assert m !in d.gap;
    }
    LoadedHoldsWaysBack(h, t, d.fragment.contents, d.start.contents);
  }
}
