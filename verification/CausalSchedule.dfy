/** An order in which ops can be applied, made out of the headers that a walk gives: the
    causal closure as a function of these, and which headers are listed. */
module CausalSchedules {
  import opened Hashing
  import opened OpHeaders
  import opened HistoryWalks

  /** What a causal closure is about. */
  datatype Request = Request(contents: set<Header>, provided: set<Header>, ignore: Filter, filter: Filter)

  /** How far it has come: the headers that are closed, in order, what each header that came
      up still waits for, and the result, from which some closed headers are left out. */
  datatype Progress = Progress(closed: seq<Header>, missing: map<Header, set<Header>>, result: seq<Header>)

  predicate IsIgnored(ignore: Filter, h: Header) {
    ignore.Some? && ignore.value(h)
  }

  function LoadMissing(missing: map<Header, set<Header>>, h: Header, provided: set<Header>): map<Header, set<Header>> {
    if h in missing then missing else missing[h := h.prevs - provided]
  }

  /** The headers in `nexts` no longer wait for `h`. */
  ghost function Release(missing: map<Header, set<Header>>, h: Header, nexts: set<Header>,
                   provided: set<Header>): map<Header, set<Header>> {
    map n | n in missing.Keys + nexts ::
      if n in nexts then LoadMissing(missing, n, provided)[n] - {h} else missing[n]
  }

  ghost function Nexts(t: Request, h: Header): set<Header> {
    set n | n in t.contents && h in n.prevs && Passes(t.filter, n)
  }

  ghost function Visit(t: Request, p: Progress, h: Header): Progress {
    if !Passes(t.filter, h) then p
    else
      var missing := LoadMissing(p.missing, h, t.provided);
      if missing[h] != {} then p.(missing := missing)
      else
        var released := Release(missing, h, Nexts(t, h), t.provided);
        if h in p.closed then p.(missing := released)
        else Progress(p.closed + [h], released, p.result + if IsIgnored(t.ignore, h) then [] else [h])
  }

  /** What comes of the headers that a walk gives, one by one. */
  ghost function Schedule(t: Request, given: seq<Header>): Progress {
    if given == [] then Progress([], map[], [])
    else Visit(t, Schedule(t, given[..|given| - 1]), given[|given| - 1])
  }

  lemma OneMoreVisit(t: Request, given: seq<Header>, h: Header)
    ensures Schedule(t, given + [h]) == Visit(t, Schedule(t, given), h)
  {
  }

  /** Whether some header follows only what has been provided or comes earlier in a list. */
  ghost predicate IsReady(h: Header, provided: set<Header>, earlier: seq<Header>) {
    forall p :: p in h.prevs ==> p in provided || p in earlier
  }

  ghost predicate IsCausalList(list: seq<Header>, provided: set<Header>) {
    && (forall i, j :: 0 <= i < j < |list| ==> list[i] != list[j])
    && (forall i :: 0 <= i < |list| ==> IsReady(list[i], provided, list[..i]))
  }

  ghost predicate WaitsExactly(t: Request, p: Progress, n: Header)
    requires n in p.missing
  {
    && n in t.contents && Passes(t.filter, n)
    && forall m :: m in p.missing[n] <==> m in n.prevs && m !in t.provided && m !in p.closed
  }

  /** What a header still waits for is kept exactly, and no closed header has been forgotten
      by those that follow it. */
  ghost predicate IsSound(t: Request, p: Progress) {
    && IsCausalList(p.closed, t.provided)
    && (forall h :: h in p.closed ==> h in t.contents && Passes(t.filter, h))
    && (forall n :: n in p.missing ==> WaitsExactly(t, p, n))
    && (forall h, n :: h in p.closed && n in Nexts(t, h) ==> n in p.missing)
  }

  lemma LoadStaysSound(t: Request, p: Progress, h: Header)
    requires IsSound(t, p) && h in t.contents && Passes(t.filter, h)
    ensures IsSound(t, p.(missing := LoadMissing(p.missing, h, t.provided)))
  {
  }

  lemma OneMoreReady(list: seq<Header>, h: Header, provided: set<Header>)
    requires IsCausalList(list, provided) && h !in list && IsReady(h, provided, list)
    ensures IsCausalList(list + [h], provided)
  {
    var longer := list + [h];
    forall i | 0 <= i < |longer|
      ensures IsReady(longer[i], provided, longer[..i])
    {
      assert longer[..i] == list[..i];
      if i < |list| {
        assert IsReady(list[i], provided, list[..i]);
      }
    }
  }

  lemma VisitStaysSound(t: Request, p: Progress, h: Header)
    requires IsSound(t, p) && h in t.contents
    ensures IsSound(t, Visit(t, p, h))
  {
    hide Passes, IsCausalList;
    if Passes(t.filter, h) {
      var missing := LoadMissing(p.missing, h, t.provided);
      var loaded := p.(missing := missing);
      LoadStaysSound(t, p, h);
      if missing[h] == {} {
        assert WaitsExactly(t, loaded, h);
        if h !in p.closed {
          OneMoreReady(p.closed, h, t.provided);
        }
        ReleaseStaysExact(t, loaded, h, Visit(t, p, h));
      }
    }
  }

  lemma ReleaseStaysExact(t: Request, p: Progress, h: Header, q: Progress)
    requires IsSound(t, p) && h in t.contents && Passes(t.filter, h)
    requires q.closed == if h in p.closed then p.closed else p.closed + [h]
    requires q.missing == Release(p.missing, h, Nexts(t, h), t.provided)
    ensures forall n :: n in q.missing ==> WaitsExactly(t, q, n)
    ensures forall c, n :: c in q.closed && n in Nexts(t, c) ==> n in q.missing
  {
    hide Passes, IsCausalList;
    forall n | n in q.missing
      ensures WaitsExactly(t, q, n)
    {
      if n in p.missing {
        assert WaitsExactly(t, p, n);
      } else {
        assert forall c :: c in p.closed ==> n !in Nexts(t, c);
      }
    }
  }

  lemma {:induction false} ScheduleIsSound(t: Request, given: seq<Header>)
    requires forall h :: h in given ==> h in t.contents
    ensures IsSound(t, Schedule(t, given))
    decreases |given|
  {
    if given != [] {
      ScheduleIsSound(t, given[..|given| - 1]);
      VisitStaysSound(t, Schedule(t, given[..|given| - 1]), given[|given| - 1]);
    }
  }

  /** The result is what is closed, without what is to be left out. */
  ghost function Kept(t: Request, closed: seq<Header>): (kept: seq<Header>)
    ensures forall h :: h in kept <==> h in closed && (t.ignore.None? || !t.ignore.value(h))
  {
    if closed == [] then []
    else
      var last := closed[|closed| - 1];
      Kept(t, closed[..|closed| - 1]) + if t.ignore.Some? && t.ignore.value(last) then [] else [last]
  }

  lemma {:induction false} ResultIsKept(t: Request, given: seq<Header>)
    ensures Schedule(t, given).result == Kept(t, Schedule(t, given).closed)
    decreases |given|
  {
    if given != [] {
      var p, h := Schedule(t, given[..|given| - 1]), given[|given| - 1];
      ResultIsKept(t, given[..|given| - 1]);
      var longer := p.closed + [h];
      assert longer[..|longer| - 1] == p.closed && longer[|longer| - 1] == h;
    }
  }

  lemma {:induction false} AllKept(t: Request, closed: seq<Header>)
    requires t.ignore.None?
    ensures Kept(t, closed) == closed
    decreases |closed|
  {
    if closed != [] {
      var shorter, last := closed[..|closed| - 1], closed[|closed| - 1];
      assert closed == shorter + [last];
      AllKept(t, shorter);
    }
  }

  /** The result names no header twice, and when nothing is left out on purpose, all the
      predecessors of each header have been provided or come before it. */
  lemma CausalClosureIsSound(t: Request, given: seq<Header>)
    requires forall h :: h in given ==> h in t.contents
    ensures IsCausalList(Schedule(t, given).closed, t.provided)
    ensures t.ignore.None? ==> IsCausalList(Schedule(t, given).result, t.provided)
    ensures Schedule(t, given).result == Kept(t, Schedule(t, given).closed)
    ensures forall h :: h in Schedule(t, given).closed ==> h in t.contents && (t.filter.None? || t.filter.value(h))
  {
    ScheduleIsSound(t, given);
    ResultIsKept(t, given);
    if t.ignore.None? {
      AllKept(t, Schedule(t, given).closed);
    }
  }

  lemma {:induction false} ScheduleGrows(t: Request, given: seq<Header>, k: nat)
    requires k <= |given|
    ensures Schedule(t, given[..k]).result <= Schedule(t, given).result
    decreases |given|
  {
    if k < |given| {
      ScheduleGrows(t, given[..|given| - 1], k);
      assert given[..|given| - 1][..k] == given[..k];
    } else {
      assert given[..k] == given;
    }
  }

  lemma ResultIsPrefix(t: Request, given: seq<Header>, k: nat, maxOps: nat)
    requires k <= |given| && |Schedule(t, given[..k]).result| <= maxOps
    requires k == |given| || |Schedule(t, given[..k]).result| == maxOps
    ensures Schedule(t, given[..k]).result ==
            var all := Schedule(t, given).result; if |all| <= maxOps then all else all[..maxOps]
  {
    ScheduleGrows(t, given, k);
    if k == |given| {
      assert given[..k] == given;
    }
  }

  // ----- when a header is closed -----

  /** The walk gives `h` at `i`, after everything that `h` follows has been provided or closed. */
  ghost predicate ClosesAt(t: Request, given: seq<Header>, i: nat, h: Header)
    requires i < |given|
  {
    given[i] == h && Passes(t.filter, h) && IsReady(h, t.provided, Schedule(t, given[..i]).closed)
  }

  lemma VisitCloses(t: Request, p: Progress, x: Header, h: Header)
    requires IsSound(t, p) && x in t.contents
    ensures h in Visit(t, p, x).closed <==>
            h in p.closed || (h == x && Passes(t.filter, h) && IsReady(h, t.provided, p.closed))
  {
    hide Passes, IsCausalList, Release;
    if h == x && Passes(t.filter, x) {
      LoadStaysSound(t, p, x);
      assert WaitsExactly(t, p.(missing := LoadMissing(p.missing, x, t.provided)), x);
    }
  }

  /** Exactly the headers that the walk gives at a time when they are ready are closed. */
  lemma {:induction false} ClosedIffReady(t: Request, given: seq<Header>, h: Header)
    requires forall g :: g in given ==> g in t.contents
    ensures h in Schedule(t, given).closed <==> exists i :: 0 <= i < |given| && ClosesAt(t, given, i, h)
    decreases |given|
  {
    hide Schedule, Visit, IsSound, IsReady, Passes;
    if given == [] {
      NothingIsClosed(t);
    } else {
      var shorter, x := given[..|given| - 1], given[|given| - 1];
      assert given == shorter + [x];
      OneMoreVisit(t, shorter, x);
      ClosedIffReady(t, shorter, h);
      ScheduleIsSound(t, shorter);
      VisitCloses(t, Schedule(t, shorter), x, h);
      forall i | 0 <= i < |shorter|
        ensures ClosesAt(t, given, i, h) <==> ClosesAt(t, shorter, i, h)
      {
        assert given[..i] == shorter[..i];
      }
      if h == x && Passes(t.filter, h) && IsReady(h, t.provided, Schedule(t, shorter).closed) {
        assert ClosesAt(t, given, |shorter|, h);
      }
    }
  }

  lemma {:induction false} ClosedGrows(t: Request, given: seq<Header>, k: nat, h: Header)
    requires k <= |given| && forall g :: g in given ==> g in t.contents
    requires h in Schedule(t, given[..k]).closed
    ensures h in Schedule(t, given).closed
    decreases |given|
  {
    hide Visit, IsSound, IsReady, Passes;
    if k < |given| {
      var shorter, x := given[..|given| - 1], given[|given| - 1];
      assert shorter[..k] == given[..k];
      ClosedGrows(t, shorter, k, h);
      ScheduleIsSound(t, shorter);
      VisitCloses(t, Schedule(t, shorter), x, h);
    } else {
      assert given[..k] == given;
    }
  }

  /** Turns of a walk for some headers, each after the turns of what the header follows, as
      far as that has not been provided. */
  ghost predicate AreTurns(t: Request, given: seq<Header>, turns: map<Header, nat>) {
    forall h :: h in turns ==>
      && turns[h] < |given| && given[turns[h]] == h && (t.filter.None? || t.filter.value(h))
      && forall p :: p in h.prevs ==> p in t.provided || (p in turns && turns[p] < turns[h])
  }

  lemma {:induction false} ClosedHaveTurns(t: Request, given: seq<Header>) returns (turns: map<Header, nat>)
    requires forall g :: g in given ==> g in t.contents
    ensures AreTurns(t, given, turns) && forall h :: h in Schedule(t, given).closed ==> h in turns
    decreases |given|
  {
    hide Visit, IsSound;
    if given == [] {
      NothingIsClosed(t);
      turns := map[];
    } else {
      var shorter, x := given[..|given| - 1], given[|given| - 1];
      var p := Schedule(t, shorter);
      turns := ClosedHaveTurns(t, shorter);
      ScheduleIsSound(t, shorter);
      forall h {
        VisitCloses(t, p, x, h);
      }
      if x !in turns && Passes(t.filter, x) && IsReady(x, t.provided, p.closed) {
        turns := turns[x := |shorter|];
      }
    }
  }

  lemma {:induction false} TurnsClose(t: Request, given: seq<Header>, turns: map<Header, nat>, h: Header, next: nat)
    requires AreTurns(t, given, turns) && h in turns && next == turns[h] + 1
    requires forall g :: g in given ==> g in t.contents
    ensures h in Schedule(t, given[..next]).closed
    decreases h
  {
    hide Schedule;
    var before := given[..turns[h]];
    forall p | p in h.prevs && p !in t.provided
      ensures p in Schedule(t, before).closed
    {
      TurnsClose(t, given, turns, p, turns[p] + 1);
      assert before[..turns[p] + 1] == given[..turns[p] + 1];
      ClosedGrows(t, before, turns[p] + 1, p);
    }
    assert given[..next] == before + [h];
    OneMoreVisit(t, before, h);
    ScheduleIsSound(t, before);
    VisitCloses(t, Schedule(t, before), h, h);
  }

  /** A header is closed exactly if the walk has turns for it and for all that it follows and
      that has not been provided, back to where that is all provided, in causal order. */
  lemma ClosedExactlyWhen(t: Request, given: seq<Header>, h: Header)
    requires forall g :: g in given ==> g in t.contents
    ensures h in Schedule(t, given).closed <==> exists turns :: AreTurns(t, given, turns) && h in turns
  {
    hide Schedule, AreTurns;
    if h in Schedule(t, given).closed {
      var turns := ClosedHaveTurns(t, given);
    }
    forall turns | AreTurns(t, given, turns) && h in turns
      ensures h in Schedule(t, given).closed
    {
      assert turns[h] < |given| by { TurnIsWithin(t, given, turns, h); }
      TurnsClose(t, given, turns, h, turns[h] + 1);
      ClosedGrows(t, given, turns[h] + 1, h);
    }
  }

  lemma TurnIsWithin(t: Request, given: seq<Header>, turns: map<Header, nat>, h: Header)
    requires AreTurns(t, given, turns) && h in turns
    ensures turns[h] < |given|
  {
  }

  lemma NothingIsClosed(t: Request)
    ensures Schedule(t, []).closed == []
  {
  }
}
