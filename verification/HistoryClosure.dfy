/** What a fragment finds out by walking: closures, reachability, and an order in which ops
    can be applied. */
module HistoryClosures {
  import opened Hashing
  import opened MultiMaps
  import opened OpHeaders
  import opened HistoryFragments
  import opened HistoryWalks
  import opened CausalSchedules
  import opened CausalWalks

  method ClosureFrom(fragment: HistoryFragment, origin: set<Header>, direction: Direction, filter: Filter)
    returns (result: set<Header>)
    requires fragment.Valid()
    ensures forall h :: h in result <==> IsReached(Ground(direction, fragment.contents, filter), origin, h)
  {
    hide HistoryFragment.Valid, HistoryWalk.Valid, IsReached, IsTurn, IsBreadthTurn, Visited, Initial;
    var walk := new HistoryWalk(false, direction, origin, fragment, filter);
    result := {};
    var r := walk.Next();
    while r.Some?
      invariant fresh(walk) && walk.Valid() && walk.fragment == fragment && walk.initial == origin
      invariant walk.Terrain() == Ground(direction, fragment.contents, filter)
      invariant walk.visited == result + if r.Some? then {r.value} else {}
      invariant r.None? ==> walk.queue == []
      decreases fragment.contents - walk.visited, |walk.queue|, r.Some?
    {
      result := result + {r.value};
      r := walk.Next();
    }
    walk.WalkedAll();
  }

  /** Whether all of the destinations are reached. */
  method IsReachable(fragment: HistoryFragment, origin: set<Header>, destination: set<Header>, direction: Direction)
    returns (reachable: bool)
    requires fragment.Valid()
    ensures reachable <==> forall h :: h in destination ==>
              IsReached(Ground(direction, fragment.contents, None), origin, h)
  {
    hide HistoryFragment.Valid, HistoryWalk.Valid, IsReached, IsTurn, IsBreadthTurn, Visited, Initial;
    ghost var g := Ground(direction, fragment.contents, None);
    var walk := new HistoryWalk(false, direction, origin, fragment, None);
    var targets := destination;
    ghost var seen := {};
    var r := walk.Next();
    while r.Some?
      invariant fresh(walk) && walk.Valid() && walk.fragment == fragment && walk.initial == origin
      invariant walk.Terrain() == g
      invariant walk.visited == seen + if r.Some? then {r.value} else {}
      invariant targets == destination - seen
      invariant r.None? ==> walk.queue == []
      decreases fragment.contents - walk.visited, |walk.queue|, r.Some?
    {
      targets := targets - {r.value};
      seen := seen + {r.value};
      if targets == {} {
        VisitedIsReached(walk);
        AllAreReached(g, origin, destination, seen);
        return true;
      }
      r := walk.Next();
    }
    walk.WalkedAll();
    NoneRemain(g, origin, destination, seen);
    reachable := targets == {};
  }

  lemma AllAreReached(g: Ground, origin: set<Header>, destination: set<Header>, seen: set<Header>)
    requires destination - seen == {} && forall h :: h in seen ==> IsReached(g, origin, h)
    ensures forall h :: h in destination ==> IsReached(g, origin, h)
  {
    hide IsReached;
    forall h | h in destination
      ensures h in seen
    {
      assert h !in destination - seen;
    }
  }

  lemma NoneRemain(g: Ground, origin: set<Header>, destination: set<Header>, seen: set<Header>)
    requires forall h :: h in seen <==> IsReached(g, origin, h)
    ensures destination - seen == {} <==> forall h :: h in destination ==> IsReached(g, origin, h)
  {
    hide IsReached;
    if h :| h in destination && h !in seen {
      assert h in destination - seen;
    }
  }

  lemma VisitedIsReached(walk: HistoryWalk)
    requires walk.Valid()
    ensures forall h :: h in walk.visited ==> IsReached(walk.Terrain(), walk.initial, h)
  {
  }

  /** The part of a fragment up to some terminal headers. */
  method FilterByTerminalOpHeaders(fragment: HistoryFragment, terminal: set<Header>) returns (filtered: HistoryFragment)
    requires fragment.Valid()
    ensures fresh(filtered) && filtered.Valid()
    ensures forall h :: h in filtered.contents <==> IsReached(Ground(Backward, fragment.contents, None), terminal, h)
    ensures filtered.terminalOpHeaders <= terminal
    ensures filtered.missingPrevOpHeaders <= fragment.missingPrevOpHeaders
  {
    hide HistoryFragment.Valid, IsReached;
    var headers := ClosureFrom(fragment, terminal, Backward, None);
    filtered := new HistoryFragment();
    var rest := headers;
    while rest != {}
      invariant fresh(filtered) && filtered.Valid() && rest <= headers && filtered.contents == headers - rest
    {
      var h :| h in rest;
      filtered.Add(h);
      rest := rest - {h};
    }
    BackwardClosureEnds(fragment, filtered, terminal);
  }

  lemma BackwardClosureEnds(fragment: HistoryFragment, filtered: HistoryFragment, terminal: set<Header>)
    requires fragment.Valid() && filtered.Valid()
    requires forall h :: h in filtered.contents <==> IsReached(Ground(Backward, fragment.contents, None), terminal, h)
    ensures filtered.terminalOpHeaders <= terminal
    ensures filtered.missingPrevOpHeaders <= fragment.missingPrevOpHeaders
  {
    var g := Ground(Backward, fragment.contents, None);
    forall h | h in filtered.terminalOpHeaders
      ensures h in terminal
    {
      var path :| IsPath(g, terminal, path) && path[|path| - 1] == h;
      if |path| > 1 {
        var v := path[|path| - 2];
        assert IsPath(g, terminal, path[..|path| - 1]);
        assert IsReached(g, terminal, v);
        VisitedIsOn(g, terminal, path[..|path| - 1]);
        assert IsNextIn(h, v, filtered.contents);
      }
    }
    forall m | m in filtered.missingPrevOpHeaders
      ensures m in fragment.missingPrevOpHeaders
    {
      var n :| IsNextIn(m, n, filtered.contents);
      StepIsReached(g, terminal, n);
      var path :| IsPath(g, terminal, path) && path[|path| - 1] == n;
      VisitedIsOn(g, terminal, path);
      assert IsNextIn(m, n, fragment.contents);
      assert m in fragment.contents ==> m in StepsFrom(g, n);
    }
  }

  lemma VisitedIsOn(g: Ground, initial: set<Header>, path: seq<Header>)
    requires IsPath(g, initial, path)
    ensures path[|path| - 1] in g.contents
  {
    if |path| > 1 {
      assert IsStep(g, path[|path| - 2], path[|path| - 1]);
    }
  }

  // ----- an order in which ops can be applied -----

  method ReleaseNexts(fragment: HistoryFragment, before: map<Header, set<Header>>, h: Header, provided: set<Header>,
                      filter: Filter)
    returns (missing: map<Header, set<Header>>)
    requires fragment.Valid()
    ensures missing == Release(before, h, Nexts(Request(fragment.contents, provided, None, filter), h), provided)
  {
    hide HistoryFragment.Valid, Passes, Release, LoadMissing;
    NextsOf(fragment, h, filter);
    missing := before;
    var rest := Get(fragment.nextOpHeaders, h);
    ghost var released: set<Header> := {};
    NoneReleased(before, h, provided);
    while rest != {}
      invariant missing == Release(before, h, released, provided) && released !! rest
      invariant released + Passing(filter, rest) == Nexts(Request(fragment.contents, provided, None, filter), h)
    {
      var n :| n in rest;
      OneMoreReleased(before, h, released, n, provided);
      if Passes(filter, n) {
        missing := LoadMissing(missing, n, provided);
        missing := missing[n := missing[n] - {h}];
        released := released + {n};
      }
      assert Passing(filter, rest) == Passing(filter, rest - {n}) + if Passes(filter, n) then {n} else {};
      rest := rest - {n};
    }
    assert Passing(filter, {}) == {};
  }

  ghost function Passing(filter: Filter, hs: set<Header>): set<Header> {
    set n | n in hs && Passes(filter, n)
  }

  lemma NextsOf(fragment: HistoryFragment, h: Header, filter: Filter)
    requires fragment.Valid()
    ensures forall t: Request :: t.contents == fragment.contents && t.filter == filter ==>
              Passing(filter, Get(fragment.nextOpHeaders, h)) == Nexts(t, h)
  {
  }

  lemma NoneReleased(missing: map<Header, set<Header>>, h: Header, provided: set<Header>)
    ensures Release(missing, h, {}, provided) == missing
  {
  }

  lemma OneMoreReleased(missing: map<Header, set<Header>>, h: Header, nexts: set<Header>, n: Header,
                        provided: set<Header>)
    requires n !in nexts
    ensures var loaded := LoadMissing(Release(missing, h, nexts, provided), n, provided);
            n in loaded && loaded[n := loaded[n] - {h}] == Release(missing, h, nexts + {n}, provided)
  {
  }

  /** The variables of the loop hold the progress. */
  ghost predicate IsKeptAs(p: Progress, closure: set<Header>, missing: map<Header, set<Header>>, result: seq<Header>) {
    p.missing == missing && p.result == result && forall h :: h in p.closed <==> h in closure
  }

  lemma NothingScheduled(t: Request)
    ensures IsKeptAs(Schedule(t, []), {}, map[], [])
  {
  }

  lemma KeptResult(p: Progress, closure: set<Header>, missing: map<Header, set<Header>>, result: seq<Header>)
    requires IsKeptAs(p, closure, missing, result)
    ensures result == p.result
  {
  }

  lemma CountsOfWalk(walk: HistoryWalk)
    requires walk.Valid() && walk.queue == [] && walk.full && walk.direction == Forward && walk.filter == None
    ensures CountsFor(Ground(Forward, walk.fragment.contents, None), walk.initial,
                      (set h | h in walk.given), multiset(walk.given))
  {
    hide CountsFor, HistoryFragment.Valid, IsReached, StepsOf, StepsInto, HistoryWalk.QueueCounted;
    walk.WalkedAll();
    assert walk.visited == set h | h in walk.given;
  }

  method VisitOne(fragment: HistoryFragment, ghost t: Request, ghost p: Progress, closure: set<Header>,
                  missing: map<Header, set<Header>>, result: seq<Header>, h: Header,
                  provided: set<Header>, ignore: Filter, filter: Filter)
    returns (closure': set<Header>, missing': map<Header, set<Header>>, result': seq<Header>)
    requires fragment.Valid() && t == Request(fragment.contents, provided, ignore, filter)
    requires IsKeptAs(p, closure, missing, result)
    ensures IsKeptAs(Visit(t, p, h), closure', missing', result')
    ensures |result'| <= |result| + 1
  {
    hide HistoryFragment.Valid, Passes, IsIgnored, LoadMissing, Release, Nexts;
    closure', missing', result' := closure, missing, result;
    if Passes(filter, h) {
      missing' := LoadMissing(missing, h, provided);
      LoadedHas(missing, h, provided);
      if missing'[h] == {} {
        missing' := ReleaseNexts(fragment, missing', h, provided, filter);
        SameNexts(t, h);
        if h !in closure {
          closure' := closure + {h};
          if !IsIgnored(ignore, h) {
            result' := result + [h];
          }
        }
      }
    }
  }

  lemma LoadedHas(missing: map<Header, set<Header>>, h: Header, provided: set<Header>)
    ensures h in LoadMissing(missing, h, provided)
  {
  }

  lemma SameNexts(t: Request, h: Header)
    ensures Nexts(t, h) == Nexts(t.(ignore := None), h)
  {
  }

  /** Goes over the headers that a full walk gives until there is no more or the limit has
      been reached. */
  method CausalClosureFrom(fragment: HistoryFragment, starting: set<Header>, provided: set<Header>, maxOps: Option<nat>,
                           ignore: Filter, filter: Filter)
    returns (result: seq<Header>, ghost given: seq<Header>, ghost queues: seq<seq<Header>>)
    requires fragment.Valid()
    ensures result == Schedule(Request(fragment.contents, provided, ignore, filter), given).result
    ensures forall h :: h in given ==> h in fragment.contents
    ensures maxOps.Some? ==> |result| <= maxOps.value
    ensures IsWalk(Ground(Forward, fragment.contents, None), queues, given)
    ensures StartsFrom(Ground(Forward, fragment.contents, None), starting, queues)
    ensures maxOps != Some(|result|) ==>
              IsFullWalk(Ground(Forward, fragment.contents, None), starting, queues, given)
    ensures maxOps != Some(|result|) ==>
              CountsFor(Ground(Forward, fragment.contents, None), starting, (set h | h in given), multiset(given))
  {
    hide *;
    ghost var t := Request(fragment.contents, provided, ignore, filter);
    ghost var g := Ground(Forward, fragment.contents, None);
    var closure, missing := {}, map[];
    result, given := [], [];
    NothingScheduled(t);
    var walk := new HistoryWalk(true, Forward, starting, fragment, None);
    queues := [walk.queue];
    WalkStarts(walk, g, queues);
    var r := walk.Next();
    TurnTaken(walk, g, queues, given, r);
    while r.Some? && maxOps != Some(|result|)
      invariant fresh(walk) && walk.Valid() && walk.fragment == fragment && walk.full && walk.initial == starting
      invariant walk.given == given + if r.Some? then [r.value] else []
      invariant forall h :: h in given ==> h in fragment.contents
      invariant r.Some? ==> r.value in fragment.contents
      invariant r.None? ==> walk.queue == []
      invariant IsWalk(g, queues, given) && StartsFrom(g, starting, queues)
      invariant IsAhead(g, queues, given, r, walk.queue)
      invariant IsKeptAs(Schedule(t, given), closure, missing, result)
      invariant maxOps.Some? ==> |result| <= maxOps.value
      decreases fragment.contents - walk.visited, |walk.queue|, r.Some?
    {
      OneMoreVisit(t, given, r.value);
      closure, missing, result := VisitOne(fragment, t, Schedule(t, given), closure, missing, result, r.value,
                                           provided, ignore, filter);
      WalkContinues(g, starting, queues, given, r.value, walk.queue);
      given, queues := given + [r.value], queues + [walk.queue];
      r := walk.Next();
      TurnTaken(walk, g, queues, given, r);
    }
    KeptResult(Schedule(t, given), closure, missing, result);
    if r.None? {
      WalkEnds(g, starting, queues, given, walk.queue);
      CountsOfWalk(walk);
      assert given == walk.given;
    }
  }

  /** The walk has taken the turn in which it gives `r`, if it has not ended. */
  ghost predicate IsAhead(g: Ground, queues: seq<seq<Header>>, given: seq<Header>, r: Option<Header>,
                          queue: seq<Header>) {
    && |queues| == |given| + 1
    && if r.None? then queues[|given|] == []
       else IsTurn(g, Visited(given), queues[|given|], queue) && queues[|given|][0] == r.value
  }

  lemma WalkStarts(walk: HistoryWalk, g: Ground, queues: seq<seq<Header>>)
    requires walk.direction == Forward && walk.filter == None && g == Ground(Forward, walk.fragment.contents, None)
    requires multiset(walk.queue) == multiset(Initial(walk.Terrain(), walk.initial)) && queues == [walk.queue]
    ensures IsWalk(g, queues, []) && StartsFrom(g, walk.initial, queues)
  {
  }

  lemma TurnTaken(walk: HistoryWalk, g: Ground, queues: seq<seq<Header>>, given: seq<Header>, r: Option<Header>)
    requires walk.direction == Forward && walk.filter == None && g == Ground(Forward, walk.fragment.contents, None)
    requires |queues| == |given| + 1
    requires r.None? ==> queues[|given|] == []
    requires r.Some? ==>
      IsTurn(walk.Terrain(), Visited(given), queues[|given|], walk.queue) && queues[|given|][0] == r.value
    ensures IsAhead(g, queues, given, r, walk.queue)
  {
    hide IsTurn;
  }

  lemma WalkContinues(g: Ground, starting: set<Header>, queues: seq<seq<Header>>, given: seq<Header>, h: Header,
                      queue: seq<Header>)
    requires IsWalk(g, queues, given) && StartsFrom(g, starting, queues)
    requires IsAhead(g, queues, given, Some(h), queue)
    ensures IsWalk(g, queues + [queue], given + [h]) && StartsFrom(g, starting, queues + [queue])
    ensures (queues + [queue])[|given| + 1] == queue && |queues + [queue]| == |given + [h]| + 1
  {
    hide IsWalk, IsTurn, Initial;
    OneMoreTurn(g, queues, given, h, queue);
  }

  lemma WalkEnds(g: Ground, starting: set<Header>, queues: seq<seq<Header>>, given: seq<Header>, queue: seq<Header>)
    requires IsWalk(g, queues, given) && StartsFrom(g, starting, queues) && IsAhead(g, queues, given, None, queue)
    ensures IsFullWalk(g, starting, queues, given)
  {
    hide IsWalk;
  }
}
