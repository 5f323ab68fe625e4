/** Full walks turn by turn, and what they mean for a causal closure: in which round of the
    walk a header is given, and which histories are listed completely for that reason. */
module CausalWalks {
  import opened Hashing
  import opened OpHeaders
  import opened HistoryWalks
  import opened CausalSchedules

  /** A full walk gives the headers at the front of its queues; `queues` lists the queue
      before the first turn and after each one. */
  ghost predicate IsWalk(g: Ground, queues: seq<seq<Header>>, given: seq<Header>)
    decreases |given|
  {
    if given == [] then |queues| == 1
    else
      var n := |given| - 1;
      && |queues| == n + 2 && IsWalk(g, queues[..n + 1], given[..n])
      && IsTurn(g, Visited(given[..n]), queues[n], queues[n + 1]) && queues[n][0] == given[n]
  }

  ghost predicate StartsFrom(g: Ground, initial: set<Header>, queues: seq<seq<Header>>) {
    queues != [] && multiset(queues[0]) == multiset(Initial(g, initial))
  }

  /** A walk that has ended. */
  ghost predicate IsFullWalk(g: Ground, initial: set<Header>, queues: seq<seq<Header>>, given: seq<Header>) {
    IsWalk(g, queues, given) && StartsFrom(g, initial, queues) && |queues| == |given| + 1 && queues[|given|] == []
  }

  lemma OneMoreTurn(g: Ground, queues: seq<seq<Header>>, given: seq<Header>, h: Header, after: seq<Header>)
    requires IsWalk(g, queues, given) && |queues| == |given| + 1
    requires IsTurn(g, Visited(given), queues[|given|], after) && queues[|given|][0] == h
    ensures IsWalk(g, queues + [after], given + [h])
  {
    var more, longer := queues + [after], given + [h];
    assert more[..|given| + 1] == queues && longer[..|given|] == given;
  }

  lemma WalkLength(g: Ground, queues: seq<seq<Header>>, given: seq<Header>)
    requires IsWalk(g, queues, given)
    ensures |queues| == |given| + 1
  {
  }

  lemma {:induction false} ListOf(hs: set<Header>) returns (list: seq<Header>)
    ensures multiset(list) == multiset(hs)
    decreases hs
  {
    if hs == {} {
      list := [];
    } else {
      var h :| h in hs;
      list := ListOf(hs - {h});
      list := list + [h];
      assert hs == hs - {h} + {h};
    }
  }

  /** A walk that has been left can be taken to its end. */
  lemma {:induction false} WalkGoesOn(g: Ground, queues: seq<seq<Header>>, given: seq<Header>)
    returns (more: seq<seq<Header>>, all: seq<Header>)
    requires IsWalk(g, queues, given) && |queues| == |given| + 1
    requires forall h :: h in queues[|given|] ==> h in g.contents
    ensures IsWalk(g, more, all) && |more| == |all| + 1 && more[|all|] == []
    ensures given <= all && more[0] == queues[0] && forall h :: h in all ==> h in given || h in g.contents
    decreases g.contents - Visited(given), |queues[|given|]|
  {
    hide StepsFrom, IsTurn, IsWalk;
    var queue := queues[|given|];
    if queue == [] {
      more, all := queues, given;
    } else {
      var after := SomeTurn(g, Visited(given), queue);
      OneMoreTurn(g, queues, given, queue[0], after);
      var longer := given + [queue[0]];
      assert Visited(longer) == Visited(given) + {queue[0]};
      assert (queues + [after])[|longer|] == after;
      more, all := WalkGoesOn(g, queues + [after], longer);
      assert given <= longer <= all;
    }
  }

  lemma SomeTurn(g: Ground, visited: set<Header>, queue: seq<Header>) returns (after: seq<Header>)
    requires queue != [] && forall h :: h in queue ==> h in g.contents
    ensures IsTurn(g, visited, queue, after) && forall h :: h in after ==> h in g.contents
    ensures queue[0] in visited ==> |after| < |queue|
  {
    hide IsStep;
    var added := [];
    if queue[0] !in visited {
      added := ListOf(StepsFrom(g, queue[0]));
    }
    after := queue[1..] + added;
    assert after[|queue| - 1..] == added;
    assert forall h :: h in added ==> h in multiset(added);
  }

  lemma {:induction false} WalkStaysOn(g: Ground, initial: set<Header>, queues: seq<seq<Header>>, given: seq<Header>)
    requires IsWalk(g, queues, given) && StartsFrom(g, initial, queues)
    ensures |queues| == |given| + 1 && forall h :: h in queues[|given|] || h in given ==> h in g.contents
    decreases |given|
  {
    hide IsStep, IsTurn;
    if given == [] {
      assert forall h :: h in queues[0] ==> h in multiset(queues[0]);
    } else {
      var n := |given| - 1;
      WalkStaysOn(g, initial, queues[..n + 1], given[..n]);
      TurnStaysOn(g, Visited(given[..n]), queues[n], queues[n + 1]);
      assert given == given[..n] + [queues[n][0]];
    }
  }

  lemma TurnStaysOn(g: Ground, visited: set<Header>, queue: seq<Header>, after: seq<Header>)
    requires IsTurn(g, visited, queue, after) && forall h :: h in queue ==> h in g.contents
    ensures queue != [] && queue[0] in g.contents && forall h :: h in after ==> h in g.contents
  {
    hide IsStep;
    var added := after[|queue| - 1..];
    assert after == queue[1..] + added;
    assert forall h :: h in added ==> h in multiset(added);
  }

  /** The result with a limit is a prefix of the result without one: a walk that was left, at
      the limit and not before unless it had ended, goes on to a full walk whose result starts
      in the same way. */
  lemma LimitGivesPrefix(t: Request, initial: set<Header>, queues: seq<seq<Header>>, given: seq<Header>, maxOps: nat)
    returns (more: seq<seq<Header>>, all: seq<Header>)
    requires IsWalk(Ground(Forward, t.contents, None), queues, given)
    requires StartsFrom(Ground(Forward, t.contents, None), initial, queues)
    requires |Schedule(t, given).result| <= maxOps
    requires |Schedule(t, given).result| == maxOps || queues[|queues| - 1] == []
    ensures IsFullWalk(Ground(Forward, t.contents, None), initial, more, all) && given <= all
    ensures Schedule(t, given).result ==
            var full := Schedule(t, all).result; if |full| <= maxOps then full else full[..maxOps]
  {
    hide Schedule, IsWalk;
    var g := Ground(Forward, t.contents, None);
    WalkStaysOn(g, initial, queues, given);
    if queues[|given|] == [] {
      more, all := queues, given;
    } else {
      more, all := WalkGoesOn(g, queues, given);
      WalkLength(g, more, all);
    }
    assert all[..|given|] == given;
    ResultIsPrefix(t, all, |given|, maxOps);
  }

  // ----- the rounds of a walk -----

  /** How many steps it takes to reach a header. */
  ghost predicate IsDistance(g: Ground, initial: set<Header>, dist: map<Header, nat>) {
    && (forall h :: h in Initial(g, initial) ==> h in dist && dist[h] == 0)
    && (forall p, n :: p in dist && n in StepsFrom(g, p) ==> n in dist && dist[n] <= dist[p] + 1)
    && (forall n :: n in dist ==>
          && n in g.contents
          && ((dist[n] == 0 && n in Initial(g, initial)) || exists p :: IsNearest(g, dist, p, n)))
  }

  ghost predicate IsNearest(g: Ground, dist: map<Header, nat>, p: Header, n: Header) {
    p in dist && n in dist && n in StepsFrom(g, p) && dist[n] == dist[p] + 1
  }

  /** The header is in a list, of an entry made in this round. */
  ghost predicate IsQueued(all: seq<Header>, rounds: seq<nat>, h: Header, round: nat) {
    exists k :: 0 <= k < |all| && k < |rounds| && all[k] == h && rounds[k] == round
  }

  /** An entry made for an initial header, or on the first visit to `v` in the round before. */
  ghost predicate IsEntry(g: Ground, initial: set<Header>, dist: map<Header, nat>, seen: seq<Header>, h: Header,
                          round: nat) {
    (round == 0 && h in Initial(g, initial)) || exists v :: IsEntryFrom(g, dist, seen, v, h, round)
  }

  ghost predicate IsEntryFrom(g: Ground, dist: map<Header, nat>, seen: seq<Header>, v: Header, h: Header, round: nat) {
    v in seen && v in dist && h in StepsFrom(g, v) && round == dist[v] + 1
  }

  /** What a walk has given and what it has queued after that, with the round of each entry. */
  ghost predicate IsLevelled(g: Ground, initial: set<Header>, dist: map<Header, nat>, all: seq<Header>, n: nat,
                             rounds: seq<nat>) {
    && |rounds| == |all| && n <= |all|
    && (forall i, j :: 0 <= i <= j < |all| ==> rounds[i] <= rounds[j])
    && (forall h :: h in Initial(g, initial) ==> IsQueued(all, rounds, h, 0))
    && (forall k :: 0 <= k < |all| ==> IsEntry(g, initial, dist, all[..n], all[k], rounds[k]))
    && (forall v, m :: v in all[..n] && m in StepsFrom(g, v) ==> v in dist && IsQueued(all, rounds, m, dist[v] + 1))
  }

  /** No header is queued for a round before it can be reached. */
  lemma EntryIsNoLess(g: Ground, initial: set<Header>, dist: map<Header, nat>, seen: seq<Header>, h: Header,
                      round: nat)
    requires IsDistance(g, initial, dist) && IsEntry(g, initial, dist, seen, h, round)
    ensures h in dist && dist[h] <= round
  {
    hide StepsFrom, Initial, IsNearest;
  }

  lemma RoundIsNoLess(g: Ground, initial: set<Header>, dist: map<Header, nat>, all: seq<Header>, n: nat,
                      rounds: seq<nat>, k: nat)
    requires IsDistance(g, initial, dist) && IsLevelled(g, initial, dist, all, n, rounds) && k < |all|
    ensures all[k] in dist && dist[all[k]] <= rounds[k]
  {
    hide StepsFrom, IsQueued, IsEntry, IsDistance, Initial;
    EntryIsNoLess(g, initial, dist, all[..n], all[k], rounds[k]);
  }

  /** What takes fewer steps than the round that the walk is in has been given. */
  lemma {:induction false} NearerIsGiven(g: Ground, initial: set<Header>, dist: map<Header, nat>, all: seq<Header>,
                                         n: nat, rounds: seq<nat>, x: Header)
    requires IsDistance(g, initial, dist) && IsLevelled(g, initial, dist, all, n, rounds)
    requires x in dist && (n < |all| ==> dist[x] < rounds[n])
    ensures x in all[..n]
    decreases dist[x]
  {
    hide StepsFrom, Initial, IsEntry;
    if dist[x] > 0 {
      var p :| IsNearest(g, dist, p, x);
      NearerIsGiven(g, initial, dist, all, n, rounds, p);
    }
    assert IsQueued(all, rounds, x, dist[x]);
    var k :| 0 <= k < |all| && all[k] == x && rounds[k] == dist[x];
    assert k < n;
  }

  /** No entry is made more than one round ahead. */
  lemma OneRoundAhead(g: Ground, initial: set<Header>, dist: map<Header, nat>, all: seq<Header>, n: nat,
                      rounds: seq<nat>, k: nat)
    requires IsDistance(g, initial, dist) && IsLevelled(g, initial, dist, all, n, rounds) && n < |all| && k < |all|
    ensures rounds[k] <= rounds[n] + 1
  {
    hide StepsFrom, Initial, IsQueued, IsDistance;
    assert IsEntry(g, initial, dist, all[..n], all[k], rounds[k]);
    if rounds[k] != 0 {
      var v :| IsEntryFrom(g, dist, all[..n], v, all[k], rounds[k]);
      var j :| 0 <= j < n && all[j] == v;
      RoundIsNoLess(g, initial, dist, all, n, rounds, j);
    }
  }

  /** First visits are made in the order of distance. */
  lemma FirstVisitIsTimely(g: Ground, initial: set<Header>, dist: map<Header, nat>, all: seq<Header>, n: nat,
                           rounds: seq<nat>)
    requires IsDistance(g, initial, dist) && IsLevelled(g, initial, dist, all, n, rounds) && n < |all|
    ensures all[n] in dist && (all[n] !in all[..n] ==> dist[all[n]] == rounds[n])
  {
    hide IsDistance, IsLevelled;
    assert |rounds| == |all| by { RoundsMatch(g, initial, dist, all, n, rounds); }
    RoundIsNoLess(g, initial, dist, all, n, rounds, n);
    if all[n] !in all[..n] && dist[all[n]] < rounds[n] {
      NearerIsGiven(g, initial, dist, all, n, rounds, all[n]);
    }
  }

  lemma RoundsMatch(g: Ground, initial: set<Header>, dist: map<Header, nat>, all: seq<Header>, n: nat,
                    rounds: seq<nat>)
    requires IsLevelled(g, initial, dist, all, n, rounds)
    ensures |rounds| == |all| && n <= |all| && forall i, j :: 0 <= i <= j < |all| ==> rounds[i] <= rounds[j]
  {
  }

  lemma RoundsStaySorted(g: Ground, initial: set<Header>, dist: map<Header, nat>, all: seq<Header>, n: nat,
                         rounds: seq<nat>, added: nat, more: seq<nat>)
    requires IsDistance(g, initial, dist) && IsLevelled(g, initial, dist, all, n, rounds) && n < |all|
    requires more == rounds + seq(added, _ => rounds[n] + 1)
    ensures forall i, j :: 0 <= i <= j < |more| ==> more[i] <= more[j]
  {
    hide IsDistance, IsLevelled;
    RoundsMatch(g, initial, dist, all, n, rounds);
    forall k | 0 <= k < |all|
      ensures rounds[k] <= rounds[n] + 1
    {
      OneRoundAhead(g, initial, dist, all, n, rounds, k);
    }
  }

  lemma TurnStaysLevelled(g: Ground, initial: set<Header>, dist: map<Header, nat>, all: seq<Header>, n: nat,
                          rounds: seq<nat>, added: seq<Header>)
    returns (more: seq<nat>)
    requires IsDistance(g, initial, dist) && IsLevelled(g, initial, dist, all, n, rounds) && n < |all|
    requires if all[n] in all[..n] then added == [] else forall m :: m in added <==> m in StepsFrom(g, all[n])
    ensures IsLevelled(g, initial, dist, all + added, n + 1, more)
  {
    hide StepsFrom, Initial, IsDistance, IsEntry, IsQueued;
    RoundsMatch(g, initial, dist, all, n, rounds);
    more := rounds + seq(|added|, _ => rounds[n] + 1);
    FirstVisitIsTimely(g, initial, dist, all, n, rounds);
    RoundsStaySorted(g, initial, dist, all, n, rounds, |added|, more);
    assert (all + added)[..n + 1] == all[..n] + [all[n]];
    EntriesStay(g, initial, dist, all, n, rounds, added, more);
    QueuedStays(g, initial, dist, all, n, rounds, added, more);
  }

  lemma EntriesStay(g: Ground, initial: set<Header>, dist: map<Header, nat>, all: seq<Header>, n: nat,
                    rounds: seq<nat>, added: seq<Header>, more: seq<nat>)
    requires IsLevelled(g, initial, dist, all, n, rounds) && n < |all| && all[n] in dist
    requires if all[n] in all[..n] then added == [] else forall m :: m in added <==> m in StepsFrom(g, all[n])
    requires all[n] !in all[..n] ==> dist[all[n]] == rounds[n]
    requires more == rounds + seq(|added|, _ => rounds[n] + 1)
    ensures forall k :: 0 <= k < |all + added| ==>
              IsEntry(g, initial, dist, all[..n] + [all[n]], (all + added)[k], more[k])
  {
    hide StepsFrom, Initial, IsQueued, IsDistance;
    forall k | 0 <= k < |all + added|
      ensures IsEntry(g, initial, dist, all[..n] + [all[n]], (all + added)[k], more[k])
    {
      if k < |all| {
        assert IsEntry(g, initial, dist, all[..n], all[k], rounds[k]);
        EntryStays(g, initial, dist, all[..n], all[n], all[k], rounds[k]);
      } else {
        assert (all + added)[k] == added[k - |all|] && added[k - |all|] in added;
        assert IsEntryFrom(g, dist, all[..n] + [all[n]], all[n], (all + added)[k], more[k]);
      }
    }
  }

  lemma EntryStays(g: Ground, initial: set<Header>, dist: map<Header, nat>, seen: seq<Header>, v: Header, h: Header,
                   round: nat)
    requires IsEntry(g, initial, dist, seen, h, round)
    ensures IsEntry(g, initial, dist, seen + [v], h, round)
  {
    hide StepsFrom, Initial;
    if !(round == 0 && h in Initial(g, initial)) {
      var w :| IsEntryFrom(g, dist, seen, w, h, round);
      assert IsEntryFrom(g, dist, seen + [v], w, h, round);
    }
  }

  lemma QueuedStays(g: Ground, initial: set<Header>, dist: map<Header, nat>, all: seq<Header>, n: nat,
                    rounds: seq<nat>, added: seq<Header>, more: seq<nat>)
    requires IsLevelled(g, initial, dist, all, n, rounds) && n < |all| && all[n] in dist
    requires if all[n] in all[..n] then added == [] else forall m :: m in added <==> m in StepsFrom(g, all[n])
    requires all[n] !in all[..n] ==> dist[all[n]] == rounds[n]
    requires more == rounds + seq(|added|, _ => rounds[n] + 1)
    ensures forall h :: h in Initial(g, initial) ==> IsQueued(all + added, more, h, 0)
    ensures forall v, m :: v in all[..n] + [all[n]] && m in StepsFrom(g, v) ==>
              v in dist && IsQueued(all + added, more, m, dist[v] + 1)
  {
    hide StepsFrom, Initial, IsEntry, IsDistance;
    forall h, r: nat | IsQueued(all, rounds, h, r)
      ensures IsQueued(all + added, more, h, r)
    {
      var k :| 0 <= k < |all| && all[k] == h && rounds[k] == r;
      assert (all + added)[k] == h && more[k] == r;
    }
    if all[n] !in all[..n] {
      forall m | m in StepsFrom(g, all[n])
        ensures IsQueued(all + added, more, m, dist[all[n]] + 1)
      {
        var k :| 0 <= k < |added| && added[k] == m;
        assert (all + added)[|all| + k] == m && more[|all| + k] == rounds[n] + 1;
      }
    }
  }

  /** Every walk goes through its rounds in order. */
  lemma {:induction false} WalkHasRounds(g: Ground, initial: set<Header>, dist: map<Header, nat>,
                                         queues: seq<seq<Header>>, given: seq<Header>)
    returns (rounds: seq<nat>)
    requires IsDistance(g, initial, dist) && IsWalk(g, queues, given) && StartsFrom(g, initial, queues)
    ensures |queues| == |given| + 1
    ensures IsLevelled(g, initial, dist, given + queues[|given|], |given|, rounds)
    decreases |given|
  {
    hide IsLevelled, IsDistance, StepsFrom, Initial, IsTurn;
    if given == [] {
      rounds := FirstRound(g, initial, dist, queues[0]);
      assert given + queues[0] == queues[0];
    } else {
      var n := |given| - 1;
      rounds := WalkHasRounds(g, initial, dist, queues[..n + 1], given[..n]);
      rounds := TurnHasRounds(g, initial, dist, given[..n], given[n], queues[n], queues[n + 1], rounds);
      assert given[..n] + [given[n]] == given;
    }
  }

  lemma TurnHasRounds(g: Ground, initial: set<Header>, dist: map<Header, nat>, given: seq<Header>, h: Header,
                      queue: seq<Header>, after: seq<Header>, rounds: seq<nat>)
    returns (more: seq<nat>)
    requires IsDistance(g, initial, dist) && IsLevelled(g, initial, dist, given + queue, |given|, rounds)
    requires IsTurn(g, Visited(given), queue, after) && queue[0] == h
    ensures IsLevelled(g, initial, dist, given + [h] + after, |given| + 1, more)
  {
    hide IsLevelled, IsDistance, StepsFrom, Initial;
    var added := after[|queue| - 1..];
    assert forall m :: m in added <==> m in multiset(added);
    assert queue == [h] + queue[1..] && after == queue[1..] + added;
    assert (given + queue)[..|given|] == given && (given + queue)[|given|] == h;
    more := TurnStaysLevelled(g, initial, dist, given + queue, |given|, rounds, added);
    assert given + queue + added == given + [h] + after;
  }

  lemma FirstRound(g: Ground, initial: set<Header>, dist: map<Header, nat>, queue: seq<Header>)
    returns (rounds: seq<nat>)
    requires multiset(queue) == multiset(Initial(g, initial))
    ensures IsLevelled(g, initial, dist, queue, 0, rounds)
  {
    hide StepsFrom, Initial, IsEntryFrom;
    rounds := seq(|queue|, _ => 0);
    assert forall h :: h in queue <==> h in multiset(queue);
    forall h | h in Initial(g, initial)
      ensures IsQueued(queue, rounds, h, 0)
    {
      assert h in multiset(Initial(g, initial)) && h in queue;
      var k :| 0 <= k < |queue| && queue[k] == h;
      assert rounds[k] == 0;
    }
    forall k | 0 <= k < |queue|
      ensures IsEntry(g, initial, dist, queue[..0], queue[k], rounds[k])
    {
      assert queue[k] in multiset(queue);
    }
  }

  /** There are distances for every history and every start. */
  lemma DistanceExists(g: Ground, initial: set<Header>) returns (dist: map<Header, nat>)
    ensures IsDistance(g, initial, dist)
  {
    var start := map h | h in Initial(g, initial) :: 0;
    assert IsDistanceUpTo(g, initial, start, 0);
    dist := OneStepFurther(g, initial, start, 0);
  }

  ghost predicate IsDistanceUpTo(g: Ground, initial: set<Header>, dist: map<Header, nat>, k: nat) {
    && (forall h :: h in Initial(g, initial) ==> h in dist && dist[h] == 0)
    && (forall p, n :: p in dist && dist[p] < k && n in StepsFrom(g, p) ==> n in dist && dist[n] <= dist[p] + 1)
    && (forall n :: n in dist ==>
          && n in g.contents && dist[n] <= k
          && ((dist[n] == 0 && n in Initial(g, initial)) || exists p :: IsNearest(g, dist, p, n)))
  }

  lemma {:induction false} OneStepFurther(g: Ground, initial: set<Header>, dist: map<Header, nat>, k: nat)
    returns (all: map<Header, nat>)
    requires IsDistanceUpTo(g, initial, dist, k)
    ensures IsDistance(g, initial, all)
    decreases g.contents - dist.Keys
  {
    hide StepsFrom, Initial, IsDistanceUpTo, IsDistance;
    var next := set n | n in g.contents && n !in dist && IsNext(g, dist, n);
    if next == {} {
      forall n | n in g.contents && n !in dist
        ensures !IsNext(g, dist, n)
      {
        assert n !in next;
      }
      NothingFurther(g, initial, dist, k);
      all := dist;
    } else {
      var further := dist + map n | n in next :: k + 1;
      StepFurtherIsDistance(g, initial, dist, k, next, further);
      var n :| n in next;
      assert n in g.contents - dist.Keys && n !in g.contents - further.Keys;
      all := OneStepFurther(g, initial, further, k + 1);
    }
  }

  ghost predicate IsNext(g: Ground, dist: map<Header, nat>, n: Header) {
    exists p :: p in dist && n in StepsFrom(g, p)
  }

  lemma NothingFurther(g: Ground, initial: set<Header>, dist: map<Header, nat>, k: nat)
    requires IsDistanceUpTo(g, initial, dist, k)
    requires forall n :: n in g.contents && n !in dist ==> !IsNext(g, dist, n)
    ensures IsDistance(g, initial, dist)
  {
    hide Initial, IsNearest, IsStep, IsNext;
    forall p, n | p in dist && n in StepsFrom(g, p)
      ensures n in dist && dist[n] <= dist[p] + 1
    {
      assert IsNext(g, dist, n) by { StepIsNext(g, dist, p, n); }
    }
  }

  lemma StepIsNext(g: Ground, dist: map<Header, nat>, p: Header, n: Header)
    requires p in dist && n in StepsFrom(g, p)
    ensures IsNext(g, dist, n) && n in g.contents
  {
  }

  lemma StepFurtherIsDistance(g: Ground, initial: set<Header>, dist: map<Header, nat>, k: nat, next: set<Header>,
                              further: map<Header, nat>)
    requires IsDistanceUpTo(g, initial, dist, k)
    requires next == set n | n in g.contents && n !in dist && IsNext(g, dist, n)
    requires further == dist + map n | n in next :: k + 1
    ensures IsDistanceUpTo(g, initial, further, k + 1)
  {
    hide Initial, StepsFrom, IsNext, IsNearest;
    forall p, n | p in further && further[p] < k + 1 && n in StepsFrom(g, p)
      ensures n in further && further[n] <= further[p] + 1
    {
      StepIsNext(g, dist, p, n);
    }
    forall n | n in further && !(further[n] == 0 && n in Initial(g, initial))
      ensures exists p :: IsNearest(g, further, p, n)
    {
      FurtherIsNearest(g, initial, dist, k, next, further, n);
    }
  }

  lemma FurtherIsNearest(g: Ground, initial: set<Header>, dist: map<Header, nat>, k: nat, next: set<Header>,
                         further: map<Header, nat>, n: Header)
    requires IsDistanceUpTo(g, initial, dist, k)
    requires next == set n | n in g.contents && n !in dist && IsNext(g, dist, n)
    requires further == dist + map n | n in next :: k + 1
    requires n in further && !(further[n] == 0 && n in Initial(g, initial))
    ensures exists p :: IsNearest(g, further, p, n)
  {
    hide Initial, StepsFrom;
    if n in next {
      var p :| p in dist && n in StepsFrom(g, p);
      assert IsNearest(g, further, p, n);
    } else {
      var p :| IsNearest(g, dist, p, n);
      assert IsNearest(g, further, p, n);
    }
  }

  // ----- which histories are listed completely -----

  /** The last turn of `n` is in a later round than the last turn of `p`: some header that `n`
      follows is farther away than all those that `p` follows. */
  ghost predicate IsGivenLater(g: Ground, dist: map<Header, nat>, p: Header, n: Header) {
    exists q :: IsBeyond(g, dist, p, q) && n in StepsFrom(g, q)
  }

  ghost predicate IsBeyond(g: Ground, dist: map<Header, nat>, p: Header, q: Header) {
    q in dist && forall r :: r in dist && p in StepsFrom(g, r) ==> dist[r] < dist[q]
  }

  /** What these headers wait for is among them, and given for the last time in an earlier round. */
  ghost predicate IsSteady(t: Request, dist: map<Header, nat>, hs: set<Header>) {
    && (forall n :: n in hs ==> n in dist && (t.filter.None? || t.filter.value(n)))
    && (forall n, p :: n in hs && p in n.prevs && p !in t.provided ==>
          p in hs && IsGivenLater(Ground(Forward, t.contents, None), dist, p, n))
  }

  /** All that can be reached and listed. */
  ghost function Listable(t: Request, dist: map<Header, nat>): set<Header> {
    set h | h in dist && (t.filter.None? || t.filter.value(h))
  }

  /** The round in which a walk gives a header for the last time. */
  ghost predicate IsLastTurn(g: Ground, dist: map<Header, nat>, given: seq<Header>, rounds: seq<nat>, x: Header,
                             k: nat) {
    && k < |given| && k < |rounds| && given[k] == x
    && (forall q :: q in dist && x in StepsFrom(g, q) ==> dist[q] < rounds[k])
    && (rounds[k] == 0 || exists q :: q in dist && x in StepsFrom(g, q) && rounds[k] == dist[q] + 1)
  }

  lemma {:induction false} Farthest(dist: map<Header, nat>, hs: set<Header>) returns (q: Header)
    requires hs != {} && hs <= dist.Keys
    ensures q in hs && forall h :: h in hs ==> dist[h] <= dist[q]
    decreases hs
  {
    q :| q in hs;
    if hs != {q} {
      var other := Farthest(dist, hs - {q});
      q := if dist[other] > dist[q] then other else q;
    }
  }

  lemma LastTurnExists(g: Ground, initial: set<Header>, dist: map<Header, nat>, given: seq<Header>, rounds: seq<nat>,
                       x: Header)
    returns (k: nat)
    requires IsDistance(g, initial, dist) && IsLevelled(g, initial, dist, given, |given|, rounds) && x in dist
    ensures IsLastTurn(g, dist, given, rounds, x, k)
  {
    hide StepsFrom, Initial, IsLevelled, IsDistance, IsQueued;
    var before := set q | q in dist && x in StepsFrom(g, q);
    if before == {} {
      forall q | q in dist
        ensures x !in StepsFrom(g, q)
      {
        assert q !in before;
      }
      NothingBefore(g, initial, dist, given, rounds, x);
      k := TurnOf(given, rounds, x, 0);
    } else {
      var q := Farthest(dist, before);
      QueuedFrom(g, initial, dist, given, rounds, q, x);
      k := TurnOf(given, rounds, x, dist[q] + 1);
    }
  }

  lemma TurnOf(given: seq<Header>, rounds: seq<nat>, x: Header, round: nat) returns (k: nat)
    requires IsQueued(given, rounds, x, round)
    ensures k < |given| && k < |rounds| && given[k] == x && rounds[k] == round
  {
    k :| 0 <= k < |given| && k < |rounds| && given[k] == x && rounds[k] == round;
  }

  lemma NothingBefore(g: Ground, initial: set<Header>, dist: map<Header, nat>, given: seq<Header>, rounds: seq<nat>,
                      x: Header)
    requires IsDistance(g, initial, dist) && IsLevelled(g, initial, dist, given, |given|, rounds) && x in dist
    requires forall q :: q in dist ==> x !in StepsFrom(g, q)
    ensures IsQueued(given, rounds, x, 0)
  {
    hide StepsFrom, Initial, IsEntry, IsQueued;
    assert forall p :: !IsNearest(g, dist, p, x);
  }

  lemma QueuedFrom(g: Ground, initial: set<Header>, dist: map<Header, nat>, given: seq<Header>, rounds: seq<nat>,
                   q: Header, x: Header)
    requires IsDistance(g, initial, dist) && IsLevelled(g, initial, dist, given, |given|, rounds)
    requires q in dist && x in StepsFrom(g, q)
    ensures IsQueued(given, rounds, x, dist[q] + 1)
  {
    hide StepsFrom, Initial, IsEntry, IsQueued, IsDistance;
    NearerIsGiven(g, initial, dist, given, |given|, rounds, q);
  }

  ghost function LastTurn(g: Ground, dist: map<Header, nat>, given: seq<Header>, rounds: seq<nat>, x: Header): (k: nat)
    requires exists k: nat :: IsLastTurn(g, dist, given, rounds, x, k)
    ensures IsLastTurn(g, dist, given, rounds, x, k)
  {
    var k: nat :| IsLastTurn(g, dist, given, rounds, x, k);
    k
  }

  lemma LaterLastTurn(g: Ground, dist: map<Header, nat>, given: seq<Header>, rounds: seq<nat>, p: Header, n: Header,
                      j: nat, k: nat)
    requires IsLastTurn(g, dist, given, rounds, p, j) && IsLastTurn(g, dist, given, rounds, n, k)
    requires IsGivenLater(g, dist, p, n) && |rounds| == |given|
    requires forall i, j :: 0 <= i <= j < |given| ==> rounds[i] <= rounds[j]
    ensures j < k
  {
    hide StepsFrom;
    var q :| IsBeyond(g, dist, p, q) && n in StepsFrom(g, q);
    assert rounds[j] < rounds[k];
  }

  /** Completeness: every full walk closes a steady part of the history. */
  lemma SteadyIsClosed(t: Request, initial: set<Header>, dist: map<Header, nat>, hs: set<Header>,
                       queues: seq<seq<Header>>, given: seq<Header>)
    requires IsDistance(Ground(Forward, t.contents, None), initial, dist) && IsSteady(t, dist, hs)
    requires IsFullWalk(Ground(Forward, t.contents, None), initial, queues, given)
    ensures forall h :: h in hs ==> h in Schedule(t, given).closed
  {
    hide Schedule, IsDistance, IsLevelled, IsWalk, AreTurns, IsLastTurn, StepsFrom, IsGivenLater;
    var g := Ground(Forward, t.contents, None);
    var rounds := WalkHasRounds(g, initial, dist, queues, given);
    assert given + queues[|given|] == given;
    GivenIsReached(g, initial, dist, given, rounds);
    forall x | x in dist
      ensures exists k: nat :: IsLastTurn(g, dist, given, rounds, x, k)
    {
      var k := LastTurnExists(g, initial, dist, given, rounds, x);
    }
    var turns := map x | x in hs :: LastTurn(g, dist, given, rounds, x);
    LastTurnsClose(t, initial, dist, hs, given, rounds, turns);
    forall h | h in hs
      ensures h in Schedule(t, given).closed
    {
      ClosedExactlyWhen(t, given, h);
    }
  }

  /** If all that can be reached and listed is steady, that is exactly what is closed. */
  lemma SteadyClosesAll(t: Request, initial: set<Header>, dist: map<Header, nat>, queues: seq<seq<Header>>,
                        given: seq<Header>)
    requires IsDistance(Ground(Forward, t.contents, None), initial, dist) && IsSteady(t, dist, Listable(t, dist))
    requires IsFullWalk(Ground(Forward, t.contents, None), initial, queues, given)
    ensures forall h :: h in Schedule(t, given).closed <==> h in Listable(t, dist)
  {
    hide Schedule, IsDistance, IsLevelled, IsWalk, IsSteady;
    var g := Ground(Forward, t.contents, None);
    SteadyIsClosed(t, initial, dist, Listable(t, dist), queues, given);
    var rounds := WalkHasRounds(g, initial, dist, queues, given);
    assert given + queues[|given|] == given;
    GivenIsReached(g, initial, dist, given, rounds);
    CausalClosureIsSound(t, given);
    forall h | h in Schedule(t, given).closed
      ensures h in dist
    {
      ClosedIsGiven(t, given, h);
    }
  }

  lemma GivenIsReached(g: Ground, initial: set<Header>, dist: map<Header, nat>, given: seq<Header>, rounds: seq<nat>)
    requires IsDistance(g, initial, dist) && IsLevelled(g, initial, dist, given, |given|, rounds)
    ensures forall h :: h in given ==> h in dist && h in g.contents
  {
    hide IsLevelled, StepsFrom, Initial;
    RoundsMatch(g, initial, dist, given, |given|, rounds);
    forall k | 0 <= k < |given|
      ensures given[k] in dist
    {
      RoundIsNoLess(g, initial, dist, given, |given|, rounds, k);
    }
  }

  lemma ClosedIsGiven(t: Request, given: seq<Header>, h: Header)
    requires forall g :: g in given ==> g in t.contents
    ensures h in Schedule(t, given).closed ==> h in given
  {
    hide Schedule, IsReady;
    ClosedIffReady(t, given, h);
  }

  lemma LastTurnsClose(t: Request, initial: set<Header>, dist: map<Header, nat>, hs: set<Header>,
                       given: seq<Header>, rounds: seq<nat>, turns: map<Header, nat>)
    requires IsSteady(t, dist, hs) && turns.Keys == hs
    requires IsLevelled(Ground(Forward, t.contents, None), initial, dist, given, |given|, rounds)
    requires forall x :: x in turns ==> IsLastTurn(Ground(Forward, t.contents, None), dist, given, rounds, x, turns[x])
    ensures AreTurns(t, given, turns)
  {
    hide IsLevelled, IsGivenLater, StepsFrom;
    var g := Ground(Forward, t.contents, None);
    RoundsMatch(g, initial, dist, given, |given|, rounds);
    forall h, p | h in turns && p in h.prevs && p !in t.provided
      ensures p in turns && turns[p] < turns[h]
    {
      LaterLastTurn(g, dist, given, rounds, p, h, turns[p], turns[h]);
    }
  }

  /** In an even history each header is one step farther than all that it follows. */
  lemma EvenIsSteady(t: Request, initial: set<Header>, dist: map<Header, nat>)
    requires IsDistance(Ground(Forward, t.contents, None), initial, dist)
    requires forall p, n :: p in dist && n in dist && p in n.prevs ==> dist[n] == dist[p] + 1
    requires forall n, p :: n in Listable(t, dist) && p in n.prevs && p !in t.provided ==> p in Listable(t, dist)
    ensures IsSteady(t, dist, Listable(t, dist))
  {
    hide IsDistance, StepsFrom, IsGivenLater;
    var g := Ground(Forward, t.contents, None);
    forall n, p | n in dist && p in n.prevs && p in dist
      ensures IsGivenLater(g, dist, p, n)
    {
      EvenIsGivenLater(g, initial, dist, p, n);
    }
  }

  lemma EvenIsGivenLater(g: Ground, initial: set<Header>, dist: map<Header, nat>, p: Header, n: Header)
    requires g.direction == Forward && g.filter == None && IsDistance(g, initial, dist)
    requires forall p, n :: p in dist && n in dist && p in n.prevs ==> dist[n] == dist[p] + 1
    requires n in dist && p in n.prevs && p in dist
    ensures IsGivenLater(g, dist, p, n)
  {
    hide IsNearest, Initial;
    assert IsBeyond(g, dist, p, p) && n in StepsFrom(g, p);
  }

  /** Every turn of `p` that is not too early to come after `r` is in a later round than all
      turns of `n`. */
  ghost predicate IsLate(g: Ground, dist: map<Header, nat>, r: Header, p: Header, n: Header) {
    r in dist ==>
      forall q, x :: q in dist && n in StepsFrom(g, q) && x in dist && p in StepsFrom(g, x) ==>
        dist[x] + 1 < dist[r] || dist[q] < dist[x]
  }

  /** Loss: a header that waits for `p`, which waits for `r`, is left out by every full walk if
      the walk comes back to `p` after `r` too late. */
  lemma LateIsLost(t: Request, initial: set<Header>, dist: map<Header, nat>, queues: seq<seq<Header>>,
                   given: seq<Header>, r: Header, p: Header, n: Header)
    requires IsDistance(Ground(Forward, t.contents, None), initial, dist)
    requires IsFullWalk(Ground(Forward, t.contents, None), initial, queues, given)
    requires p in n.prevs && r in p.prevs && p !in t.provided && r !in t.provided
    requires IsLate(Ground(Forward, t.contents, None), dist, r, p, n)
    ensures n !in Schedule(t, given).closed
  {
    hide Schedule, IsDistance, IsLevelled, IsWalk, StepsFrom, AreTurns;
    var g := Ground(Forward, t.contents, None);
    var rounds := WalkHasRounds(g, initial, dist, queues, given);
    assert given + queues[|given|] == given;
    GivenIsReached(g, initial, dist, given, rounds);
    ClosedExactlyWhen(t, given, n);
    if n in Schedule(t, given).closed {
      var turns :| AreTurns(t, given, turns) && n in turns;
      WaitsInTurn(t, given, turns, n, p);
      WaitsInTurn(t, given, turns, p, r);
      RoundsMatch(g, initial, dist, given, |given|, rounds);
      RoundIsNoLess(g, initial, dist, given, |given|, rounds, turns[r]);
      PredecessorSteps(g, p, n);
      PredecessorSteps(g, r, p);
      EntryOfTurn(g, initial, dist, given, rounds, turns[p]);
      EntryOfTurn(g, initial, dist, given, rounds, turns[n]);
      assert false;
    }
  }

  lemma WaitsInTurn(t: Request, given: seq<Header>, turns: map<Header, nat>, n: Header, p: Header)
    requires AreTurns(t, given, turns) && n in turns && p in n.prevs && p !in t.provided
    ensures p in turns && turns[p] < turns[n] < |given| && given[turns[p]] == p && given[turns[n]] == n
  {
  }

  lemma PredecessorSteps(g: Ground, p: Header, n: Header)
    requires g.direction == Forward && g.filter == None && p in n.prevs && n in g.contents
    ensures n in StepsFrom(g, p)
  {
  }

  lemma EntryOfTurn(g: Ground, initial: set<Header>, dist: map<Header, nat>, given: seq<Header>, rounds: seq<nat>,
                    k: nat)
    requires IsLevelled(g, initial, dist, given, |given|, rounds) && k < |given|
    ensures |rounds| == |given|
    ensures rounds[k] == 0 || exists q :: q in dist && given[k] in StepsFrom(g, q) && rounds[k] == dist[q] + 1
  {
    hide StepsFrom, Initial, IsQueued;
    assert IsEntry(g, initial, dist, given[..|given|], given[k], rounds[k]);
    if rounds[k] != 0 {
      var q :| IsEntryFrom(g, dist, given[..|given|], q, given[k], rounds[k]);
    }
  }
}
