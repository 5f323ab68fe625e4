/** Walks over a fragment, forward or backward, that give one header after the other. */
module HistoryWalks {
  import opened Hashing
  import opened FiniteSets
  import opened MultiMaps
  import opened OpHeaders
  import opened HistoryFragments

  datatype Direction = Forward | Backward

  /** Which headers a walk may give. */
  type Filter = Option<Header -> bool>

  predicate Passes(filter: Filter, h: Header) {
    filter.None? || filter.value(h)
  }

  /** What a walk is about: a direction, a fragment and a filter. */
  datatype Ground = Ground(direction: Direction, contents: set<Header>, filter: Filter)

  ghost predicate IsOn(g: Ground, h: Header) {
    h in g.contents && (g.filter.None? || g.filter.value(h))
  }

  /** One step of a walk. */
  ghost predicate IsStep(g: Ground, v: Header, n: Header) {
    IsOn(g, n) && if g.direction.Forward? then v in n.prevs else n in v.prevs
  }

  ghost function StepsFrom(g: Ground, v: Header): set<Header> {
    set n | n in g.contents && IsStep(g, v, n)
  }

  /** All the steps from some headers. */
  ghost function StepsOf(g: Ground, vs: set<Header>): set<(Header, Header)> {
    set v, n | v in vs && n in g.contents && IsStep(g, v, n) :: (v, n)
  }

  /** The headers among `vs` from which a step leads to `n`. */
  ghost function StepsInto(g: Ground, vs: set<Header>, n: Header): set<Header> {
    set v | v in vs && IsStep(g, v, n)
  }

  ghost function Initial(g: Ground, initial: set<Header>): set<Header> {
    set h | h in initial && IsOn(g, h)
  }

  ghost predicate IsPath(g: Ground, initial: set<Header>, path: seq<Header>) {
    && |path| > 0 && path[0] in Initial(g, initial)
    && forall i :: 0 < i < |path| ==> IsStep(g, path[i - 1], path[i])
  }

  ghost predicate IsReached(g: Ground, initial: set<Header>, h: Header) {
    exists path :: IsPath(g, initial, path) && path[|path| - 1] == h
  }

  lemma InitialIsReached(g: Ground, initial: set<Header>)
    ensures forall h :: h in Initial(g, initial) ==> IsReached(g, initial, h)
  {
    forall h | h in Initial(g, initial)
      ensures IsReached(g, initial, h)
    {
      assert IsPath(g, initial, [h]) && [h][0] == h;
    }
  }

  lemma StepIsReached(g: Ground, initial: set<Header>, v: Header)
    requires IsReached(g, initial, v)
    ensures forall n :: n in StepsFrom(g, v) ==> IsReached(g, initial, n)
  {
    var path :| IsPath(g, initial, path) && path[|path| - 1] == v;
    forall n | n in StepsFrom(g, v)
      ensures IsReached(g, initial, n)
    {
      assert IsPath(g, initial, path + [n]) && (path + [n])[|path|] == n;
    }
  }

  /** What holds the initial headers and every step from what it holds holds all that is reached. */
  lemma {:induction false} ClosedHoldsReached(g: Ground, initial: set<Header>, closed: set<Header>, path: seq<Header>)
    requires Initial(g, initial) <= closed && forall v :: v in closed ==> StepsFrom(g, v) <= closed
    requires IsPath(g, initial, path)
    ensures path[|path| - 1] in closed
    decreases |path|
  {
    if |path| > 1 {
      var shorter := path[..|path| - 1];
      ClosedHoldsReached(g, initial, closed, shorter);
      assert path[|path| - 1] in StepsFrom(g, path[|path| - 2]);
    }
  }

  // ----- counting -----

  lemma StepsOneMore(g: Ground, vs: set<Header>, v: Header)
    requires v !in vs
    ensures |StepsOf(g, vs + {v})| == |StepsOf(g, vs)| + |StepsFrom(g, v)|
  {
    var mine := set n | n in StepsFrom(g, v) :: (v, n);
    assert StepsOf(g, vs + {v}) == StepsOf(g, vs) + mine;
    PairsCount(v, StepsFrom(g, v), mine);
  }

  lemma {:induction false} PairsCount(v: Header, ns: set<Header>, pairs: set<(Header, Header)>)
    requires pairs == set n | n in ns :: (v, n)
    ensures |pairs| == |ns|
    decreases ns
  {
    if ns == {} {
      assert pairs == {};
    } else {
      var n :| n in ns;
      PairsCount(v, ns - {n}, pairs - {(v, n)});
    }
  }

  lemma StepsIntoOneMore(g: Ground, vs: set<Header>, v: Header, n: Header)
    requires v !in vs
    ensures |StepsInto(g, vs + {v}, n)| == |StepsInto(g, vs, n)| + if n in StepsFrom(g, v) then 1 else 0
  {
    assert StepsInto(g, vs + {v}, n) == StepsInto(g, vs, n) + if n in StepsFrom(g, v) then {v} else {};
  }

  /** How often a header has been or will be given: once for being initial, and once for each
      step that leads to it from a visited header. */
  ghost predicate CountsFor(g: Ground, initial: set<Header>, visited: set<Header>, all: multiset<Header>) {
    forall n :: all[n] == (if n in Initial(g, initial) then 1 else 0) + |StepsInto(g, visited, n)|
  }

  lemma CountsOneMore(g: Ground, initial: set<Header>, visited: set<Header>, all: multiset<Header>, v: Header)
    requires CountsFor(g, initial, visited, all) && v !in visited
    ensures CountsFor(g, initial, visited + {v}, all + multiset(StepsFrom(g, v)))
  {
    forall n {
      StepsIntoOneMore(g, visited, v, n);
    }
  }

  /** What a walk has seen is reached, and it has not lost anything on the way. */
  ghost predicate Sees(g: Ground, initial: set<Header>, given: seq<Header>, visited: set<Header>, queue: seq<Header>) {
    && (forall h :: h in given <==> h in visited)
    && (forall h :: h in queue || h in visited ==> IsOn(g, h) && IsReached(g, initial, h))
    && (forall h :: h in Initial(g, initial) ==> h in queue || h in visited)
    && (forall v, n :: v in visited && n in StepsFrom(g, v) ==> n in queue || n in visited)
  }

  lemma SeesStart(g: Ground, initial: set<Header>, queue: seq<Header>)
    requires multiset(queue) == multiset(Initial(g, initial))
    ensures Sees(g, initial, [], {}, queue) && |queue| == |Initial(g, initial)|
    ensures CountsFor(g, initial, {}, multiset([]) + multiset(queue)) && forall h :: multiset(queue)[h] <= 1
    ensures StepsOf(g, {}) == {}
  {
    InitialIsReached(g, initial);
    assert forall h :: h in queue <==> h in multiset(queue);
    assert |queue| == |multiset(queue)|;
    forall n
      ensures StepsInto(g, {}, n) == {}
    {
    }
  }

  /** The next header is given, and its steps have been queued if this was its first visit. */
  lemma SeesNext(g: Ground, initial: set<Header>, given: seq<Header>, visited: set<Header>, queue: seq<Header>,
                 h: Header, rest: seq<Header>, after: seq<Header>)
    requires Sees(g, initial, given, visited, queue) && queue == [h] + rest
    requires forall n :: n in after <==> n in rest || (h !in visited && n in StepsFrom(g, h))
    ensures Sees(g, initial, given + [h], visited + {h}, after)
  {
    StepIsReached(g, initial, h);
    assert forall n :: n in queue <==> n == h || n in rest;
  }

  lemma StaysBounded(g: Ground, initial: set<Header>, given: nat, visited: set<Header>, h: Header, rest: nat,
                     after: nat)
    requires given + 1 + rest <= |Initial(g, initial)| + |StepsOf(g, visited)|
    requires after <= rest + if h in visited then 0 else |StepsFrom(g, h)|
    ensures given + 1 + after <= |Initial(g, initial)| + |StepsOf(g, visited + {h})|
  {
    if h in visited {
      assert visited + {h} == visited;
    } else {
      StepsOneMore(g, visited, h);
    }
  }

  lemma StaysCounted(g: Ground, initial: set<Header>, given: seq<Header>, visited: set<Header>, queue: seq<Header>,
                     h: Header, rest: seq<Header>, after: seq<Header>)
    requires CountsFor(g, initial, visited, multiset(given) + multiset(queue)) && queue == [h] + rest
    requires multiset(after) == multiset(rest) + if h in visited then multiset{} else multiset(StepsFrom(g, h))
    ensures CountsFor(g, initial, visited + {h}, multiset(given + [h]) + multiset(after))
  {
    var all := multiset(given) + multiset(queue);
    assert multiset(queue) == multiset{h} + multiset(rest);
    if h in visited {
      assert visited + {h} == visited;
      assert multiset(given + [h]) + multiset(after) == all;
    } else {
      CountsOneMore(g, initial, visited, all, h);
      assert multiset(given + [h]) + multiset(after) == all + multiset(StepsFrom(g, h));
    }
  }

  ghost function Visited(given: seq<Header>): set<Header> {
    set h | h in given
  }

  /** One turn of a full walk: the first header leaves the queue, and on its first visit the
      steps from it join at the end. */
  ghost predicate IsTurn(g: Ground, visited: set<Header>, queue: seq<Header>, after: seq<Header>) {
    && queue != [] && queue[1..] <= after
    && multiset(after[|queue| - 1..]) == if queue[0] in visited then multiset{} else multiset(StepsFrom(g, queue[0]))
  }

  /** One turn of a walk that goes breadth first: of the steps, those join that are not in the
      queue already. */
  ghost predicate IsBreadthTurn(g: Ground, visited: set<Header>, queue: seq<Header>, after: seq<Header>) {
    && queue != [] && queue[1..] <= after
    && multiset(after[|queue| - 1..]) ==
         if queue[0] in visited then multiset{}
         else multiset(set n | n in StepsFrom(g, queue[0]) && n !in queue[1..])
  }

  lemma TakesTurn(g: Ground, visited: set<Header>, queue: seq<Header>, h: Header, rest: seq<Header>,
                  after: seq<Header>)
    requires queue == [h] + rest && rest <= after
    requires multiset(after) == multiset(rest) + if h in visited then multiset{} else multiset(StepsFrom(g, h))
    ensures IsTurn(g, visited, queue, after)
  {
    var added := after[|rest|..];
    assert after == rest + added;
    forall n
      ensures multiset(added)[n] == multiset(after)[n] - multiset(rest)[n]
    {
    }
  }

  /** What a walk has seen, with the bound on its turns and the counts of a full walk. */
  ghost predicate IsSoundWalk(g: Ground, full: bool, initial: set<Header>, given: seq<Header>, visited: set<Header>,
                              queue: seq<Header>) {
    && Sees(g, initial, given, visited, queue)
    && |given| + |queue| <= |Initial(g, initial)| + |StepsOf(g, visited)|
    && (if full then CountsFor(g, initial, visited, multiset(given) + multiset(queue))
        else forall h :: multiset(queue)[h] <= 1)
  }

  /** What a turn does to the queue, in either kind of walk. */
  ghost predicate Advances(g: Ground, full: bool, visited: set<Header>, queue: seq<Header>, after: seq<Header>)
    requires queue != []
  {
    var rest, steps := queue[1..], if queue[0] in visited then {} else StepsFrom(g, queue[0]);
    && rest <= after && |after| <= |rest| + |steps|
    && (forall n :: n in after <==> n in rest || n in steps)
    && multiset(after[|rest|..]) == multiset(Joining(full, steps, rest))
  }

  /** The headers that join a queue: all of them if the walk is full, else those that are not
      queued already. */
  ghost function Joining(full: bool, hs: set<Header>, queue: seq<Header>): set<Header> {
    set h | h in hs && (full || h !in queue)
  }

  lemma TurnStaysSound(g: Ground, full: bool, initial: set<Header>, given: seq<Header>, visited: set<Header>,
                       queue: seq<Header>, after: seq<Header>)
    requires IsSoundWalk(g, full, initial, given, visited, queue) && queue != []
    requires Advances(g, full, visited, queue, after)
    ensures IsSoundWalk(g, full, initial, given + [queue[0]], visited + {queue[0]}, after)
    ensures if full then IsTurn(g, Visited(given), queue, after) else IsBreadthTurn(g, Visited(given), queue, after)
    ensures queue[0] in visited ==> |after| < |queue|
  {
    hide Sees, CountsFor, IsTurn, Visited, StepsFrom, StepsOf, Initial, Joining;
    var h, rest := queue[0], queue[1..];
    var steps := if h in visited then {} else StepsFrom(g, h);
    assert queue == [h] + rest && after == rest + after[|rest|..];
    WhatJoins(full, steps, rest);
    SeesNext(g, initial, given, visited, queue, h, rest, after);
    StaysBounded(g, initial, |given|, visited, h, |rest|, |after|);
    GivenAreVisited(g, initial, given, visited, queue);
    if full {
      TakesTurn(g, visited, queue, h, rest, after);
      StaysCounted(g, initial, given, visited, queue, h, rest, after);
    } else {
      StaysApart(queue, steps, after);
    }
  }

  /** Nothing is queued twice. */
  lemma StaysApart(queue: seq<Header>, steps: set<Header>, after: seq<Header>)
    requires queue != [] && (forall h :: multiset(queue)[h] <= 1) && queue[1..] <= after
    requires multiset(after[|queue| - 1..]) == multiset(Joining(false, steps, queue[1..]))
    ensures forall h :: multiset(after)[h] <= 1
  {
    var rest, added := queue[1..], after[|queue| - 1..];
    assert queue == [queue[0]] + rest && after == rest + added;
    WhatJoins(false, steps, rest);
    forall h
      ensures multiset(after)[h] <= 1
    {
      assert multiset(rest)[h] <= multiset(queue)[h];
      assert multiset(rest)[h] > 0 ==> h in rest;
    }
  }

  lemma QueueAdvances(full: bool, rest: seq<Header>, steps: set<Header>, after: seq<Header>)
    requires rest <= after && multiset(after[|rest|..]) == multiset(Joining(full, steps, rest))
    ensures |after| <= |rest| + |steps| && forall n :: n in after <==> n in rest || n in steps
  {
    var added, joining := after[|rest|..], Joining(full, steps, rest);
    assert after == rest + added;
    assert forall n :: n in added <==> n in multiset(added);
    assert |added| == |multiset(added)| == |multiset(joining)| == |joining|;
    SubsetIsSmaller(joining, steps);
  }

  lemma WhatJoins(full: bool, hs: set<Header>, queue: seq<Header>)
    ensures if full then Joining(full, hs, queue) == hs else Joining(full, hs, queue) == set n | n in hs && n !in queue
    ensures !full ==> forall h :: h in queue ==> multiset(Joining(full, hs, queue))[h] == 0
  {
  }

  lemma GivenAreVisited(g: Ground, initial: set<Header>, given: seq<Header>, visited: set<Header>, queue: seq<Header>)
    requires Sees(g, initial, given, visited, queue)
    ensures visited == Visited(given)
  {
  }

  lemma NoInitial(g: Ground)
    ensures Initial(g, {}) == {}
  {
  }

  lemma OneInitialLess(g: Ground, rest: set<Header>, h: Header)
    requires h in rest
    ensures !IsOn(g, h) ==> Initial(g, rest - {h}) == Initial(g, rest)
    ensures IsOn(g, h) ==> multiset(Initial(g, rest)) == multiset{h} + multiset(Initial(g, rest - {h}))
  {
  }

  lemma NoneJoins(full: bool, succs: set<Header>, contents: set<Header>, queue: seq<Header>)
    ensures Joining(full, (succs - succs) * contents, queue) == {}
  {
  }

  /** One more header has been dealt with. */
  lemma OneMoreJoins(full: bool, succs: set<Header>, rest: set<Header>, contents: set<Header>, queue: seq<Header>,
                     joined: seq<Header>, succ: Header)
    requires succ in rest && rest <= succs
    requires multiset(joined) == multiset(Joining(full, (succs - rest) * contents, queue))
    ensures multiset(joined + if succ !in contents || (!full && succ in queue + joined) then [] else [succ]) ==
            multiset(Joining(full, (succs - (rest - {succ})) * contents, queue))
  {
    var before, after := Joining(full, (succs - rest) * contents, queue),
                         Joining(full, (succs - (rest - {succ})) * contents, queue);
    assert succ !in multiset(joined) && succ !in joined;
    if succ !in contents || (!full && succ in queue + joined) {
      assert after == before;
    } else {
      assert after == before + {succ};
    }
  }

  /** A walk that is `full` queues a header each time that a step leads to it; one that goes
      breadth first does not while the header is queued already. */
  class HistoryWalk {
    const full: bool
    const fragment: HistoryFragment
    const direction: Direction
    const filter: Filter
    ghost const initial: set<Header>
    ghost var given: seq<Header>

    var visited: set<Header>
    var queue: seq<Header>
    var queueContents: map<Header, nat>

    ghost function Terrain(): Ground
      reads fragment
    {
      Ground(direction, fragment.contents, filter)
    }

    ghost predicate QueueCounted()
      reads `queue, `queueContents
    {
      && (forall h :: multiset(queue)[h] == if h in queueContents then queueContents[h] else 0)
      && (forall h :: h in queueContents ==> queueContents[h] > 0)
    }

    ghost predicate Valid()
      reads this, fragment
    {
      fragment.Valid() && QueueCounted() && IsSoundWalk(Terrain(), full, initial, given, visited, queue)
    }

    constructor (full: bool, direction: Direction, initial: set<Header>, fragment: HistoryFragment, filter: Filter)
      requires fragment.Valid()
      ensures Valid() && given == [] && visited == {} && this.full == full
      ensures this.fragment == fragment && this.direction == direction && this.filter == filter
      ensures this.initial == initial && multiset(queue) == multiset(Initial(Terrain(), initial))
    {
      this.full, this.direction, this.initial, this.fragment, this.filter := full, direction, initial, fragment, filter;
      given, visited, queue, queueContents := [], {}, [], map[];
      new;
      QueueInitial(initial);
      IsValidAtStart();
    }

    lemma IsValidAtStart()
      requires fragment.Valid() && QueueCounted() && multiset(queue) == multiset(Initial(Terrain(), initial))
      requires given == [] && visited == {}
      ensures Valid()
    {
      hide Sees, CountsFor, HistoryFragment.Valid, QueueCounted, Initial, StepsOf;
      SeesStart(Terrain(), initial, queue);
    }

    method QueueInitial(initial: set<Header>)
      requires QueueCounted() && queue == []
      modifies `queue, `queueContents
      ensures QueueCounted() && multiset(queue) == multiset(Initial(Terrain(), initial))
    {
      hide QueueCounted, Initial;
      ghost var g := Terrain();
      var rest := initial;
      NoInitial(g);
      while rest != {}
        invariant QueueCounted() && multiset(queue) + multiset(Initial(g, rest)) == multiset(Initial(g, initial))
      {
        var h :| h in rest;
        OneInitialLess(g, rest, h);
        rest := rest - {h};
        if h in fragment.contents && Passes(filter, h) {
          assert multiset(queue)[h] + 1 <= multiset(Initial(g, initial))[h];
          EnqueueIfNew(h);
        }
      }
    }

    method Enqueue(what: Header)
      requires QueueCounted()
      modifies `queue, `queueContents
      ensures QueueCounted() && queue == old(queue) + [what]
    {
      queue := queue + [what];
      var count := if what in queueContents then queueContents[what] else 0;
      queueContents := queueContents[what := count + 1];
    }

    method EnqueueIfNew(what: Header)
      requires QueueCounted()
      modifies `queue, `queueContents
      ensures QueueCounted()
      ensures queue == old(queue) + if what in old(queue) then [] else [what]
    {
      assert what in queue <==> multiset(queue)[what] > 0;
      if what !in queueContents {
        Enqueue(what);
      }
    }

    method Dequeue() returns (h: Header)
      requires QueueCounted() && queue != []
      modifies `queue, `queueContents
      ensures QueueCounted() && [h] + queue == old(queue)
    {
      h := queue[0];
      assert queue == [queue[0]] + queue[1..];
      queue := queue[1..];
      var count := queueContents[h];
      if count == 1 {
        queueContents := queueContents - {h};
      } else {
        queueContents := queueContents[h := count - 1];
      }
    }

    /** The steps from a header, the first time that it is visited. */
    method GoFrom(h: Header) returns (succs: set<Header>)
      requires fragment.Valid() && h in fragment.contents
      modifies `visited
      ensures visited == old(visited) + {h}
      ensures forall n :: n in succs && n in fragment.contents <==> h !in old(visited) && n in StepsFrom(Terrain(), h)
    {
      if h in visited {
        assert visited == visited + {h};
        return {};
      }
      visited := visited + {h};
      var unfiltered;
      if direction.Forward? {
        NextOf(fragment.nextOpHeaders, fragment.contents, h);
        unfiltered := Get(fragment.nextOpHeaders, h);
      } else {
        unfiltered := h.prevs;
      }
      succs := set n | n in unfiltered && Passes(filter, n);
    }

    method EnqueueOne(succ: Header)
      requires QueueCounted()
      modifies `queue, `queueContents
      ensures QueueCounted() && queue == old(queue) + if !full && succ in old(queue) then [] else [succ]
    {
      hide QueueCounted;
      if full {
        Enqueue(succ);
      } else {
        EnqueueIfNew(succ);
      }
    }

    /** Queues the headers of a set that the fragment holds. */
    method EnqueueAll(succs: set<Header>)
      requires QueueCounted()
      modifies `queue, `queueContents
      ensures QueueCounted() && old(queue) <= queue
      ensures multiset(queue[|old(queue)|..]) == multiset(Joining(full, succs * fragment.contents, old(queue)))
    {
      hide QueueCounted, Joining;
      var rest := succs;
      ghost var joined := [];
      NoneJoins(full, succs, fragment.contents, queue);
      while rest != {}
        invariant QueueCounted() && rest <= succs && queue == old(queue) + joined
        invariant multiset(joined) == multiset(Joining(full, (succs - rest) * fragment.contents, old(queue)))
      {
        var succ :| succ in rest;
        OneMoreJoins(full, succs, rest, fragment.contents, old(queue), joined, succ);
        rest := rest - {succ};
        if succ in fragment.contents {
          ghost var before := queue;
          EnqueueOne(succ);
          joined := joined + if !full && succ in before then [] else [succ];
        }
      }
      assert (succs - rest) * fragment.contents == succs * fragment.contents;
    }

    /** Takes the first header out of the queue and queues the steps from it if this is its
        first visit. */
    method Advance() returns (h: Header)
      requires fragment.Valid() && QueueCounted() && queue != [] && queue[0] in fragment.contents
      modifies `visited, `queue, `queueContents
      ensures QueueCounted() && h == old(queue)[0] && visited == old(visited) + {h}
      ensures Advances(Terrain(), full, old(visited), old(queue), queue)
    {
      hide HistoryFragment.Valid, QueueCounted;
      h := Dequeue();
      ghost var rest := queue;
      assert rest == old(queue)[1..];
      var succs := GoFrom(h);
      assert succs * fragment.contents == if h in old(visited) then {} else StepsFrom(Terrain(), h);
      EnqueueAll(succs);
      QueueAdvances(full, rest, succs * fragment.contents, queue);
    }

    /** The next header, until the queue is empty. Either a header is visited for the first
        time or the queue gets shorter. */
    method Next() returns (r: Option<Header>)
      requires Valid()
      modifies `given, `visited, `queue, `queueContents
      ensures Valid() && fragment.contents == old(fragment.contents)
      ensures r.None? <==> old(queue) == []
      ensures r.None? ==> queue == [] && given == old(given) && visited == old(visited)
      ensures r.Some? ==> r.value in fragment.contents && given == old(given) + [r.value]
      ensures r.Some? ==> visited == old(visited) + {r.value}
      ensures r.Some? ==> r.value in old(visited) ==> |queue| < old(|queue|)
      ensures r.Some? ==> r.value == old(queue)[0]
      ensures r.Some? ==>
                if full then IsTurn(Terrain(), Visited(old(given)), old(queue), queue)
                else IsBreadthTurn(Terrain(), Visited(old(given)), old(queue), queue)
    {
      hide IsSoundWalk, Advances, HistoryFragment.Valid, QueueCounted, IsTurn, IsBreadthTurn, Visited;
      if queue == [] {
        return None;
      }
      QueuedIsOn();
      var h := Advance();
      TurnStaysSound(Terrain(), full, initial, given, old(visited), old(queue), queue);
      given := given + [h];
      r := Some(h);
    }

    lemma QueuedIsOn()
      requires Valid() && queue != []
      ensures queue[0] in fragment.contents
    {
      hide HistoryFragment.Valid, QueueCounted;
      assert queue[0] in queue && IsOn(Terrain(), queue[0]);
    }

    /** A walk that has ended has visited exactly what is reached, and has given no more than
        there are initial headers and steps; a full one has given each header once for being
        initial and once for each step that leads to it. */
    lemma WalkedAll()
      requires Valid() && queue == []
      ensures forall h :: h in visited <==> IsReached(Terrain(), initial, h)
      ensures |given| <= |Initial(Terrain(), initial)| + |StepsOf(Terrain(), visited)|
      ensures full ==> CountsFor(Terrain(), initial, visited, multiset(given))
    {
      var g := Terrain();
      forall h | IsReached(g, initial, h)
        ensures h in visited
      {
        var path :| IsPath(g, initial, path) && path[|path| - 1] == h;
        ClosedHoldsReached(g, initial, visited, path);
      }
      assert multiset(given) + multiset(queue) == multiset(given);
    }
  }
}
