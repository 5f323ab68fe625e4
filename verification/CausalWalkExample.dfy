/** Two histories over which a causal closure is not complete. */
module CausalWalkExamples {
  import opened Hashing
  import opened OpHeaders
  import opened HistoryWalks
  import opened CausalSchedules
  import opened CausalWalks

  /** A turn, one that puts `added` at the end of the queue. */
  lemma Turn(g: Ground, queues: seq<seq<Header>>, given: seq<Header>, h: Header, rest: seq<Header>,
             added: seq<Header>)
    returns (more: seq<seq<Header>>, longer: seq<Header>)
    requires IsWalk(g, queues, given) && |queues| == |given| + 1 && queues[|given|] == [h] + rest
    requires if h in given then added == [] else forall n :: n in added <==> n in StepsFrom(g, h)
    requires forall i, j :: 0 <= i < j < |added| ==> added[i] != added[j]
    ensures more == queues + [rest + added] && longer == given + [h]
    ensures IsWalk(g, more, longer) && |more| == |longer| + 1 && more[|longer|] == rest + added
  {
    hide IsWalk, StepsFrom;
    more, longer := queues + [rest + added], given + [h];
    assert ([h] + rest)[1..] == rest && (rest + added)[|rest|..] == added;
    if h !in given {
      DistinctIsSet(added, StepsFrom(g, h));
    }
    OneMoreTurn(g, queues, given, h, rest + added);
  }

  lemma {:induction false} DistinctIsSet(list: seq<Header>, hs: set<Header>)
    requires (forall n :: n in list <==> n in hs) && forall i, j :: 0 <= i < j < |list| ==> list[i] != list[j]
    ensures multiset(list) == multiset(hs)
    decreases |list|
  {
    if list == [] {
      assert hs == {};
    } else {
      assert list == [list[0]] + list[1..];
      assert forall n :: n in list[1..] <==> n in hs - {list[0]};
      DistinctIsSet(list[1..], hs - {list[0]});
      assert hs == {list[0]} + (hs - {list[0]});
    }
  }

  lemma WalkBegins(g: Ground, start: Header)
    ensures IsWalk(g, [[start]], [])
  {
  }

  // ----- one that no walk closes completely -----

  /** `d` follows `a` at once and also by way of `b` and `c`, and `e` follows `d`: `e` is given
      only before `d` has been closed. */
  ghost predicate IsUneven(a: Header, b: Header, c: Header, d: Header, e: Header) {
    && a.prevs == {} && b.prevs == {a} && c.prevs == {b} && d.prevs == {a, c} && e.prevs == {d}
    && a != b && a != c && a != d && a != e && b != c && b != d && b != e && c != d && c != e && d != e
  }

  /** Whatever walk there is from `a`: `e` is lost, although all that it follows is closed. */
  lemma UnevenHistoryLosesHeader(a: Header, b: Header, c: Header, d: Header, e: Header,
                                 queues: seq<seq<Header>>, given: seq<Header>)
    requires IsUneven(a, b, c, d, e)
    requires IsFullWalk(Ground(Forward, {a, b, c, d, e}, None), {a}, queues, given)
    ensures var closed := Schedule(Request({a, b, c, d, e}, {}, None, None), given).closed;
            e !in closed && IsReady(e, {}, closed)
  {
    hide Schedule, IsFullWalk;
    var t := Request({a, b, c, d, e}, {}, None, None);
    var g := Ground(Forward, t.contents, None);
    var dist := map[a := 0, b := 1, d := 1, c := 2, e := 2];
    UnevenDistance(g, a, b, c, d, e, dist);
    UnevenIsLate(g, a, b, c, d, e, dist);
    UnevenIsSteady(g, a, b, c, d, e, dist);
    LateIsLost(t, {a}, dist, queues, given, c, d, e);
    SteadyIsClosed(t, {a}, dist, {a, b, c, d}, queues, given);
  }

  lemma UnevenSteps(g: Ground, a: Header, b: Header, c: Header, d: Header, e: Header)
    requires g == Ground(Forward, {a, b, c, d, e}, None) && IsUneven(a, b, c, d, e)
    ensures StepsFrom(g, a) == {b, d} && StepsFrom(g, b) == {c} && StepsFrom(g, c) == {d}
    ensures StepsFrom(g, d) == {e} && StepsFrom(g, e) == {}
    ensures Initial(g, {a}) == {a}
  {
  }

  lemma UnevenDistance(g: Ground, a: Header, b: Header, c: Header, d: Header, e: Header, dist: map<Header, nat>)
    requires g == Ground(Forward, {a, b, c, d, e}, None) && IsUneven(a, b, c, d, e)
    requires dist == map[a := 0, b := 1, d := 1, c := 2, e := 2]
    ensures IsDistance(g, {a}, dist)
  {
    hide StepsFrom, Initial;
    UnevenSteps(g, a, b, c, d, e);
    assert IsNearest(g, dist, a, b) && IsNearest(g, dist, a, d) && IsNearest(g, dist, b, c) && IsNearest(g, dist, d, e);
    hide IsNearest;
  }

  lemma UnevenIsLate(g: Ground, a: Header, b: Header, c: Header, d: Header, e: Header, dist: map<Header, nat>)
    requires g == Ground(Forward, {a, b, c, d, e}, None) && IsUneven(a, b, c, d, e)
    requires dist == map[a := 0, b := 1, d := 1, c := 2, e := 2]
    ensures IsLate(g, dist, c, d, e)
  {
    hide StepsFrom, Initial;
    UnevenSteps(g, a, b, c, d, e);
  }

  lemma UnevenIsSteady(g: Ground, a: Header, b: Header, c: Header, d: Header, e: Header, dist: map<Header, nat>)
    requires g == Ground(Forward, {a, b, c, d, e}, None) && IsUneven(a, b, c, d, e)
    requires dist == map[a := 0, b := 1, d := 1, c := 2, e := 2]
    ensures IsSteady(Request(g.contents, {}, None, None), dist, {a, b, c, d})
  {
    hide StepsFrom, Initial;
    UnevenSteps(g, a, b, c, d, e);
    assert IsBeyond(g, dist, a, a) && IsBeyond(g, dist, b, b) && IsBeyond(g, dist, c, c) && IsBeyond(g, dist, a, c);
    hide IsBeyond;
    assert IsGivenLater(g, dist, a, b) && IsGivenLater(g, dist, b, c);
    assert IsGivenLater(g, dist, a, d) && IsGivenLater(g, dist, c, d);
    hide IsGivenLater;
  }

  // ----- one for which the order of visits decides -----

  /** `p` follows `s` at once and also by way of `u`, and `n` follows `p`. */
  ghost predicate IsForked(s: Header, u: Header, p: Header, n: Header) {
    && s.prevs == {} && u.prevs == {s} && p.prevs == {s, u} && n.prevs == {p}
    && s != u && s != p && s != n && u != p && u != n && p != n
  }

  lemma ForkedSteps(g: Ground, s: Header, u: Header, p: Header, n: Header)
    requires g == Ground(Forward, {s, u, p, n}, None) && IsForked(s, u, p, n)
    ensures StepsFrom(g, s) == {u, p} && StepsFrom(g, u) == {p} && StepsFrom(g, p) == {n} && StepsFrom(g, n) == {}
  {
  }

  /** Two full walks over one history, of which one loses a header and the other does not:
      what is listed can depend on the order in which sets are gone over. */
  lemma OrderDecides(s: Header, u: Header, p: Header, n: Header)
    returns (queues: seq<seq<Header>>, given: seq<Header>, queues': seq<seq<Header>>, given': seq<Header>)
    requires IsForked(s, u, p, n)
    ensures var g := Ground(Forward, {s, u, p, n}, None);
            IsFullWalk(g, {s}, queues, given) && IsFullWalk(g, {s}, queues', given')
    ensures var t := Request({s, u, p, n}, {}, None, None);
            n in Schedule(t, given).closed && n !in Schedule(t, given').closed
  {
    hide Schedule, IsWalk, StepsFrom, StartsFrom, StartsLike;
    var g := Ground(Forward, {s, u, p, n}, None);
    ForkedSteps(g, s, u, p, n);
    queues, given := DirectLast(g, s, u, p, n);
    StartsFromOne(g, s, queues);
    queues', given' := DirectFirst(g, s, u, p, n);
    StartsFromOne(g, s, queues');
    ForkedCloses(Request({s, u, p, n}, {}, None, None), s, u, p, n, given);
    ForkedLoses(Request({s, u, p, n}, {}, None, None), s, u, p, n, given');
  }

  /** The first visit of a header from which there is one step, or none. */
  lemma FirstVisit(g: Ground, queues: seq<seq<Header>>, given: seq<Header>, h: Header, rest: seq<Header>,
                   added: seq<Header>)
    returns (more: seq<seq<Header>>, longer: seq<Header>)
    requires IsWalk(g, queues, given) && |queues| == |given| + 1 && queues[|given|] == [h] + rest && h !in given
    requires |added| <= 1 && StepsFrom(g, h) == if added == [] then {} else {added[0]}
    ensures longer == given + [h] && IsWalk(g, more, longer) && StartsLike(more, queues)
    ensures |more| == |longer| + 1 && more[|longer|] == rest + added
  {
    hide IsWalk, StepsFrom;
    more, longer := Turn(g, queues, given, h, rest, added);
  }

  lemma SecondVisit(g: Ground, queues: seq<seq<Header>>, given: seq<Header>, h: Header, rest: seq<Header>)
    returns (more: seq<seq<Header>>, longer: seq<Header>)
    requires IsWalk(g, queues, given) && |queues| == |given| + 1 && queues[|given|] == [h] + rest && h in given
    ensures longer == given + [h] && IsWalk(g, more, longer) && StartsLike(more, queues)
    ensures |more| == |longer| + 1 && more[|longer|] == rest
  {
    hide IsWalk, StepsFrom;
    more, longer := Turn(g, queues, given, h, rest, []);
    assert rest + [] == rest;
  }

  ghost predicate StartsLike(more: seq<seq<Header>>, queues: seq<seq<Header>>) {
    queues != [] && more != [] && more[0] == queues[0]
  }

  /** The first two turns, whichever of `u` and `p` comes first. */
  lemma ForkedStart(g: Ground, s: Header, x: Header, y: Header, next: Header)
    returns (queues: seq<seq<Header>>, given: seq<Header>)
    requires IsOn(g, s) && s != x && x != y && StepsFrom(g, s) == {x, y} && StepsFrom(g, x) == {next}
    ensures IsWalk(g, queues, given) && StartsLike(queues, [[s]]) && given == [s, x]
    ensures |queues| == 3 && queues[2] == [y, next]
  {
    hide StepsFrom, IsWalk, IsOn;
    WalkBegins(g, s);
    queues, given := Turn(g, [[s]], [], s, [], [x, y]);
    assert given == [s] && queues[1] == [x] + [y];
    queues, given := FirstVisit(g, queues, given, x, [y], [next]);
  }

  lemma DirectLast(g: Ground, s: Header, u: Header, p: Header, n: Header)
    returns (queues: seq<seq<Header>>, given: seq<Header>)
    requires IsOn(g, s) && StepsFrom(g, s) == {u, p} && StepsFrom(g, u) == {p} && StepsFrom(g, p) == {n}
    requires StepsFrom(g, n) == {} && s != u && s != p && s != n && u != p && u != n && p != n
    ensures IsWalk(g, queues, given) && StartsLike(queues, [[s]]) && given == [s, u, p, p, n]
    ensures |queues| == 6 && queues[5] == []
  {
    hide StepsFrom, IsWalk, IsOn;
    queues, given := ForkedStart(g, s, u, p, p);
    assert [p] + [p] == [p, p];
    queues, given := FirstVisit(g, queues, given, p, [p], [n]);
    queues, given := SecondVisit(g, queues, given, p, [n]);
    queues, given := FirstVisit(g, queues, given, n, [], []);
  }

  lemma DirectFirst(g: Ground, s: Header, u: Header, p: Header, n: Header)
    returns (queues: seq<seq<Header>>, given: seq<Header>)
    requires IsOn(g, s) && StepsFrom(g, s) == {u, p} && StepsFrom(g, u) == {p} && StepsFrom(g, p) == {n}
    requires StepsFrom(g, n) == {} && s != u && s != p && s != n && u != p && u != n && p != n
    ensures IsWalk(g, queues, given) && StartsLike(queues, [[s]]) && given == [s, p, u, n, p]
    ensures |queues| == 6 && queues[5] == []
  {
    hide StepsFrom, IsWalk, IsOn;
    queues, given := ForkedStart(g, s, p, u, n);
    assert [u] + [n] == [u, n];
    queues, given := FirstVisit(g, queues, given, u, [n], [p]);
    queues, given := FirstVisit(g, queues, given, n, [p], []);
    queues, given := SecondVisit(g, queues, given, p, []);
  }

  lemma StartsFromOne(g: Ground, s: Header, queues: seq<seq<Header>>)
    requires IsOn(g, s) && StartsLike(queues, [[s]])
    ensures StartsFrom(g, {s}, queues)
  {
    assert Initial(g, {s}) == {s};
  }

  lemma ForkedCloses(t: Request, s: Header, u: Header, p: Header, n: Header, given: seq<Header>)
    requires t == Request({s, u, p, n}, {}, None, None) && IsForked(s, u, p, n) && given == [s, u, p, p, n]
    ensures n in Schedule(t, given).closed
  {
    hide Schedule;
    var turns := map[s := 0, u := 1, p := 2, n := 4];
    assert AreTurns(t, given, turns);
    ClosedExactlyWhen(t, given, n);
  }

  lemma ForkedLoses(t: Request, s: Header, u: Header, p: Header, n: Header, given: seq<Header>)
    requires t == Request({s, u, p, n}, {}, None, None) && IsForked(s, u, p, n) && given == [s, p, u, n, p]
    ensures n !in Schedule(t, given).closed
  {
    hide Schedule, AreTurns;
    ClosedExactlyWhen(t, given, n);
    forall turns | AreTurns(t, given, turns)
      ensures n !in turns
    {
      if n in turns {
        WaitsInTurn(t, given, turns, n, p);
        WaitsInTurn(t, given, turns, p, u);
        assert false;
      }
    }
  }
}
