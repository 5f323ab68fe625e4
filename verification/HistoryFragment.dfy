/** Part of the history of an object: some of its op headers, and indices over them that are
    kept up to date as headers come and go. */
module HistoryFragments {
  import opened Hashing
  import opened MultiMaps
  import opened OpHeaders

  // ----- what the indices mean, over the headers that are present -----

  ghost predicate IsNextIn(p: Header, n: Header, contents: set<Header>) {
    n in contents && p in n.prevs
  }

  ghost predicate IsTerminalIn(h: Header, contents: set<Header>) {
    h in contents && forall n :: !IsNextIn(h, n, contents)
  }

  ghost predicate IsMissingIn(h: Header, contents: set<Header>) {
    h !in contents && exists n :: IsNextIn(h, n, contents)
  }

  /** A header of which some predecessor is absent, or which has none. */
  ghost predicate IsStartingIn(h: Header, contents: set<Header>) {
    h in contents && (h.prevs == {} || exists p :: p in h.prevs && p !in contents)
  }

  ghost predicate ExactTerminals(terminal: set<Header>, contents: set<Header>) {
    forall h :: h in terminal <==> IsTerminalIn(h, contents)
  }

  ghost predicate ExactMissing(missing: set<Header>, contents: set<Header>) {
    forall h :: h in missing <==> IsMissingIn(h, contents)
  }

  ghost predicate ExactNext(next: Rel<Header, Header>, contents: set<Header>) {
    forall p, n :: (p, n) in next <==> IsNextIn(p, n, contents)
  }

  lemma NextOf(next: Rel<Header, Header>, contents: set<Header>, p: Header)
    requires ExactNext(next, contents)
    ensures forall n :: n in Get(next, p) <==> IsNextIn(p, n, contents)
    ensures Get(next, p) == {} <==> forall n :: !IsNextIn(p, n, contents)
  {
  }

  lemma NotOwnPrev(h: Header)
    ensures h !in h.prevs
  {
  }

  // ----- one more, and one less -----

  /** What adding a header does to the terminal headers: the source's own lemma. */
  lemma TerminalsAfterAdd(terminal: set<Header>, missing: set<Header>, contents: set<Header>, h: Header)
    requires ExactTerminals(terminal, contents) && ExactMissing(missing, contents) && h !in contents
    ensures ExactTerminals((if h in missing then terminal else terminal + {h}) - h.prevs, contents + {h})
    ensures ExactMissing(missing - {h} + (h.prevs - contents), contents + {h})
  {
    NotOwnPrev(h);
    var after := contents + {h};
    forall g, n
      ensures IsNextIn(g, n, after) <==> IsNextIn(g, n, contents) || (n == h && g in h.prevs)
    {
    }
    forall g
      ensures IsMissingIn(g, after) <==> g in missing - {h} + (h.prevs - contents)
    {
      if IsMissingIn(g, after) {
        var n :| IsNextIn(g, n, after);
        assert IsNextIn(g, n, contents) || n == h;
      }
      if g in h.prevs - contents {
        assert IsNextIn(g, h, after);
      } else if g in missing - {h} {
        var n :| IsNextIn(g, n, contents);
        assert IsNextIn(g, n, after);
      }
    }
    forall g
      ensures IsTerminalIn(g, after) <==> g in (if h in missing then terminal else terminal + {h}) - h.prevs
    {
      if IsTerminalIn(g, after) {
        assert !IsNextIn(g, h, after);
        forall n
          ensures !IsNextIn(g, n, contents)
        {
          assert !IsNextIn(g, n, after);
        }
      } else if g in after {
        var n :| IsNextIn(g, n, after);
        assert IsNextIn(g, n, contents) || n == h;
      }
    }
  }

  /** The predecessors of `h` that nothing that remains follows. */
  ghost predicate IsUncovered(p: Header, h: Header, contents: set<Header>) {
    p in h.prevs && forall n :: !IsNextIn(p, n, contents - {h})
  }

  lemma IndicesAfterRemove(terminal: set<Header>, missing: set<Header>, contents: set<Header>, h: Header,
                           afterTerminal: set<Header>, afterMissing: set<Header>)
    requires ExactTerminals(terminal, contents) && ExactMissing(missing, contents) && h in contents
    requires forall g :: g in afterTerminal <==>
              g != h && (g in terminal || (IsUncovered(g, h, contents) && g in contents))
    requires forall g :: g in afterMissing <==>
                    (g in missing || (g == h && exists n :: IsNextIn(h, n, contents))) &&
                    !(IsUncovered(g, h, contents) && g !in contents)
    ensures ExactTerminals(afterTerminal, contents - {h}) && ExactMissing(afterMissing, contents - {h})
  {
    NotOwnPrev(h);
    var after := contents - {h};
    forall g, n
      ensures IsNextIn(g, n, after) <==> IsNextIn(g, n, contents) && n != h
    {
    }
    forall g
      ensures IsTerminalIn(g, after) <==> g in afterTerminal
    {
      if IsTerminalIn(g, after) && g !in terminal {
        var n :| IsNextIn(g, n, contents);
        assert !IsNextIn(g, n, after);
        assert IsUncovered(g, h, contents);
      }
    }
    forall g
      ensures IsMissingIn(g, after) <==> g in afterMissing
    {
      if IsMissingIn(g, after) {
        var n :| IsNextIn(g, n, after);
        assert IsNextIn(g, n, contents);
        assert !IsUncovered(g, h, contents);
      }
      if g in afterMissing && !IsUncovered(g, h, contents) {
        if g in h.prevs {
          var n :| IsNextIn(g, n, contents - {h});
        } else {
          var n :| IsNextIn(g, n, contents);
          assert IsNextIn(g, n, after);
        }
      }
    }
  }

  class HistoryFragment {
    var contents: set<Header>
    var terminalOpHeaders: set<Header>
    var missingPrevOpHeaders: set<Header>
    var roots: set<Header>
    var opHeadersForOp: Rel<Hash, Header>
    var nextOpHeaders: Rel<Header, Header>

    ghost predicate ByHeader()
      reads `contents, `roots, `opHeadersForOp
    {
      && (forall h :: h in roots <==> h in contents && h.prevs == {})
      && (forall o, h :: (o, h) in opHeadersForOp <==> h in contents && h.opHash == o)
    }

    /** Every index is what the contents make it. */
    ghost predicate Valid()
      reads this
    {
      && ExactTerminals(terminalOpHeaders, contents) && ExactMissing(missingPrevOpHeaders, contents)
      && ExactNext(nextOpHeaders, contents) && ByHeader()
    }

    constructor ()
      ensures Valid() && contents == {}
    {
      contents, terminalOpHeaders, missingPrevOpHeaders, roots := {}, {}, {}, {};
      opHeadersForOp, nextOpHeaders := {}, {};
    }

    method Add(h: Header)
      requires Valid()
      modifies this
      ensures Valid() && contents == old(contents) + {h}
    {
      hide ExactTerminals, ExactMissing, ExactNext;
      if h in contents {
        assert contents == contents + {h};
        return;
      }
      TerminalsAfterAdd(terminalOpHeaders, missingPrevOpHeaders, contents, h);
      ghost var firstTerminal := if h in missingPrevOpHeaders then terminalOpHeaders else terminalOpHeaders + {h};
      TerminalsAreContents(terminalOpHeaders, contents);
      NotOwnPrev(h);
      contents := contents + {h};
      opHeadersForOp := opHeadersForOp + {(h.opHash, h)};
      if h.prevs == {} {
        roots := roots + {h};
      }
      if h in missingPrevOpHeaders {
        missingPrevOpHeaders := missingPrevOpHeaders - {h};
      } else {
        terminalOpHeaders := terminalOpHeaders + {h};
      }
      AddPrevs(h, old(contents));
      assert terminalOpHeaders == firstTerminal - h.prevs;
      assert missingPrevOpHeaders == old(missingPrevOpHeaders) - {h} + (h.prevs - old(contents));
    }

    /** Notes the predecessors of a header that has just been added. */
    method AddPrevs(h: Header, ghost before: set<Header>)
      requires ExactNext(nextOpHeaders, before) && contents == before + {h}
      requires terminalOpHeaders <= contents
      modifies `terminalOpHeaders, `missingPrevOpHeaders, `nextOpHeaders
      ensures ExactNext(nextOpHeaders, contents)
      ensures terminalOpHeaders == old(terminalOpHeaders) - h.prevs
      ensures missingPrevOpHeaders == old(missingPrevOpHeaders) + (h.prevs - contents)
    {
      var rest := h.prevs;
      while rest != {}
        invariant rest <= h.prevs
        invariant terminalOpHeaders == old(terminalOpHeaders) - (h.prevs - rest)
        invariant missingPrevOpHeaders == old(missingPrevOpHeaders) + (h.prevs - rest - contents)
        invariant forall p, n :: (p, n) in nextOpHeaders <==> IsNextIn(p, n, before) || (n == h && p in h.prevs - rest)
      {
        var prev :| prev in rest;
        rest := rest - {prev};
        if prev !in contents {
          missingPrevOpHeaders := missingPrevOpHeaders + {prev};
        } else {
          terminalOpHeaders := terminalOpHeaders - {prev};
        }
        nextOpHeaders := nextOpHeaders + {(prev, h)};
      }
    }

    method Remove(h: Header)
      requires Valid()
      modifies this
      ensures Valid() && contents == old(contents) - {h}
    {
      hide ExactTerminals, ExactMissing, ExactNext;
      if h in contents {
        NotOwnPrev(h);
        NextOf(nextOpHeaders, contents, h);
        contents := contents - {h};
        opHeadersForOp := opHeadersForOp - {(h.opHash, h)};
        terminalOpHeaders := terminalOpHeaders - {h};
        if h.prevs == {} {
          roots := roots - {h};
        }
        if Get(nextOpHeaders, h) != {} {
          missingPrevOpHeaders := missingPrevOpHeaders + {h};
        }
        RemovePrevs(h, old(contents));
        IndicesAfterRemove(old(terminalOpHeaders), old(missingPrevOpHeaders), old(contents), h,
                           terminalOpHeaders, missingPrevOpHeaders);
      } else {
        assert contents == contents - {h};
      }
    }

    /** Forgets about the predecessors of a header that has just been removed. */
    method RemovePrevs(h: Header, ghost before: set<Header>)
      requires ExactNext(nextOpHeaders, before) && h in before && contents == before - {h}
      modifies `terminalOpHeaders, `missingPrevOpHeaders, `nextOpHeaders
      ensures ExactNext(nextOpHeaders, contents)
      ensures forall g :: g in terminalOpHeaders <==>
                g in old(terminalOpHeaders) || (IsUncovered(g, h, before) && g in contents)
      ensures forall g :: g in missingPrevOpHeaders <==>
                g in old(missingPrevOpHeaders) && !(IsUncovered(g, h, before) && g !in contents)
    {
      var rest := h.prevs;
      while rest != {}
        invariant rest <= h.prevs
        invariant forall p, n :: (p, n) in nextOpHeaders <==> IsNextIn(p, n, before) && !(n == h && p in h.prevs - rest)
        invariant forall g :: g in terminalOpHeaders <==>
                         g in old(terminalOpHeaders) || (g !in rest && IsUncovered(g, h, before) && g in contents)
        invariant forall g :: g in missingPrevOpHeaders <==>
                         g in old(missingPrevOpHeaders) && !(g !in rest && IsUncovered(g, h, before) && g !in contents)
      {
        var prev :| prev in rest;
        rest := rest - {prev};
        nextOpHeaders := nextOpHeaders - {(prev, h)};
        NoneLeft(nextOpHeaders, before, prev, h);
        if Get(nextOpHeaders, prev) == {} {
          if prev in contents {
            terminalOpHeaders := terminalOpHeaders + {prev};
          } else {
            missingPrevOpHeaders := missingPrevOpHeaders - {prev};
          }
        }
      }
    }

    /** Keeps the terminal headers only. */
    method RemoveNonTerminalOps()
      requires Valid()
      modifies this
      ensures Valid() && contents == old(terminalOpHeaders) && terminalOpHeaders == old(terminalOpHeaders)
    {
      hide ExactTerminals, ExactMissing, ExactNext, ByHeader;
      var terminal := terminalOpHeaders;
      TerminalsAreContents(terminal, contents);
      var keys := contents;
      while keys != {}
        invariant Valid() && keys <= old(contents)
        invariant terminal <= contents && contents <= old(contents) && contents <= terminal + keys
      {
        var h :| h in keys;
        keys := keys - {h};
        if h !in terminal {
          Remove(h);
        }
      }
      assert contents == terminal;
      TerminalsStayTerminal(terminal, old(contents), terminalOpHeaders);
    }

    method Clone() returns (clone: HistoryFragment)
      requires Valid()
      ensures fresh(clone) && clone.Valid() && clone.contents == contents
    {
      hide ExactTerminals, ExactMissing, ExactNext, ByHeader;
      clone := new HistoryFragment();
      var rest := contents;
      while rest != {}
        invariant rest <= contents && fresh(clone) && clone.Valid() && clone.contents == contents - rest
      {
        var h :| h in rest;
        clone.Add(h);
        rest := rest - {h};
      }
    }

    /** Where the fragment starts: its roots, and what follows a header that it misses. */
    method GetStartingOpHeaders() returns (starting: set<Header>)
      requires Valid()
      ensures forall h :: h in starting <==> IsStartingIn(h, contents)
    {
      starting := roots;
      var rest := missingPrevOpHeaders;
      while rest != {}
        invariant rest <= missingPrevOpHeaders
        invariant forall h :: h in starting <==>
                         && h in contents
                         && (h.prevs == {} || exists p :: p in h.prevs && p in missingPrevOpHeaders - rest)
      {
        var missing :| missing in rest;
        NextOf(nextOpHeaders, contents, missing);
        starting := starting + Get(nextOpHeaders, missing);
        rest := rest - {missing};
      }
      forall h, p | h in contents && p in h.prevs && p !in contents
        ensures p in missingPrevOpHeaders
      {
        assert IsNextIn(p, h, contents);
      }
    }

    /** Loads some headers, up to a limit; fails when the store does not have one of them. */
    method LoadBatch(store: set<Header>, next: set<Header>, maxOpHeaders: Option<nat>, ghost start: set<Header>)
      returns (ok: bool, ghost added: set<Header>)
      requires Valid() && HasRoom(start, contents, maxOpHeaders)
      modifies this
      ensures Valid() && added <= next && contents == old(contents) + added
      ensures ok && next != {} ==> added != {}
      ensures added <= store && (!ok ==> exists h :: h in next && h !in store)
      ensures ok && maxOpHeaders != Some(|contents|) ==> added == next
      ensures KeepsLimit(start, contents, maxOpHeaders)
      ensures ok && maxOpHeaders != Some(|contents|) ==> HasRoom(start, contents, maxOpHeaders)
    {
      hide Valid, HasRoom, KeepsLimit;
      ok, added := true, {};
      var rest := next;
      RoomKeepsLimit(start, contents, maxOpHeaders);
      while rest != {}
        invariant Valid() && rest <= next && added == next - rest && contents == old(contents) + added && added <= store
        invariant HasRoom(start, contents, maxOpHeaders) && KeepsLimit(start, contents, maxOpHeaders)
      {
        var h :| h in rest;
        if h !in store {
          return false, added;
        }
        rest := rest - {h};
        OneMoreHeader(start, contents, h, maxOpHeaders);
        Add(h);
        added := added + {h};
        if maxOpHeaders == Some(|contents|) {
          return true, added;
        }
      }
    }

    /** Loads headers backwards from some on; fails when the store does not have one. Unless
        there was room for another header to begin with, the limit has no effect. */
    method LoadFromTerminalOpHeaders(store: set<Header>, terminal: set<Header>, maxOpHeaders: Option<nat>,
                                     forbiddenOpHeaders: Option<set<Header>>)
      returns (ok: bool)
      requires Valid()
      modifies this
      ensures Valid()
      ensures forbiddenOpHeaders.Some? ==> contents - old(contents) !! forbiddenOpHeaders.value
      ensures forbiddenOpHeaders.None? && ok && maxOpHeaders != Some(|contents|) ==> missingPrevOpHeaders == {}
      ensures var forbidden := if forbiddenOpHeaders.Some? then forbiddenOpHeaders.value else {};
              var from := terminal + old(missingPrevOpHeaders);
              && IsLoaded(old(contents), contents, store, from, forbidden)
              && (!ok ==> exists h :: h !in store && IsLoadable(h, from, forbidden))
              && (ok ==> HoldsOne(terminal - forbidden, contents))
              && (ok && maxOpHeaders != Some(|contents|) ==>
                    terminal - forbidden <= contents && missingPrevOpHeaders <= forbidden)
              && (ok && maxOpHeaders != Some(|contents|) && old(contents) == {} ==>
                    forall h :: h in contents <==> IsLoadable(h, terminal, forbidden))
      ensures KeepsLimit(old(contents), contents, maxOpHeaders)
    {
      hide Valid, IsLoadable, IsLoaded, HasRoom, KeepsLimit, ExactMissing, HoldsOne;
      var forbidden := if forbiddenOpHeaders.Some? then forbiddenOpHeaders.value else {};
      ghost var from := terminal + missingPrevOpHeaders;
      var next := terminal - forbidden;
      NextIsLoadable(next, from, forbidden);
      MissingIsExact();
      NothingLoaded(contents, store, from, forbidden, maxOpHeaders);
      var going := true;
      ghost var first := true;
      ok := true;
      while going
        invariant Valid() && IsLoaded(old(contents), contents, store, from, forbidden)
        invariant going || next == missingPrevOpHeaders - forbidden
        invariant first ==> going && next == terminal - forbidden
        invariant !first && ok && maxOpHeaders != Some(|contents|) ==> terminal - forbidden <= contents
        invariant !first && ok ==> HoldsOne(terminal - forbidden, contents)
        invariant forall h :: h in next ==> IsLoadable(h, from, forbidden)
        invariant !ok ==> !going && exists h :: h !in store && IsLoadable(h, from, forbidden)
        invariant ok && !going && maxOpHeaders != Some(|contents|) ==> next == {}
        invariant going && !first ==> maxOpHeaders != Some(|contents|)
        invariant going ==> HasRoom(old(contents), contents, maxOpHeaders)
        invariant KeepsLimit(old(contents), contents, maxOpHeaders)
        invariant first || (next !! contents && (going ==> next != {}))
        decreases store - contents, first, going
      {
        ghost var added;
        ghost var was := contents;
        ok, added := LoadBatch(store, next, maxOpHeaders, old(contents));
        LessToLoad(store, was, added);
        StillHoldsOne(terminal - forbidden, was, contents);
        if first && ok {
          NowHoldsOne(next, added, contents);
        }
        LoadedMore(old(contents), was, added, store, from, forbidden);
        next := missingPrevOpHeaders - forbidden;
        NextAfterBatch(old(contents), store, from, forbidden, old(missingPrevOpHeaders));
        first := false;
        going := ok && next != {} && maxOpHeaders != Some(|contents|);
      }
      NoneBeyond(missingPrevOpHeaders, forbidden);
      LoadedIsAllowed(old(contents), contents, store, from, forbidden);
      if ok && maxOpHeaders != Some(|contents|) && old(contents) == {} {
        LoadedFromEmpty(terminal, forbidden, store, old(missingPrevOpHeaders));
      }
    }

    lemma LoadedFromEmpty(terminal: set<Header>, forbidden: set<Header>, store: set<Header>, missing: set<Header>)
      requires Valid() && missingPrevOpHeaders <= forbidden && terminal - forbidden <= contents
      requires ExactMissing(missing, {}) && IsLoaded({}, contents, store, terminal + missing, forbidden)
      ensures forall h :: h in contents <==> IsLoadable(h, terminal, forbidden)
    {
      assert terminal + missing == terminal;
      LoadedIsExactlyLoadable(contents, terminal, forbidden);
    }

    lemma NextAfterBatch(before: set<Header>, store: set<Header>, from: set<Header>, forbidden: set<Header>,
                         missing: set<Header>)
      requires Valid() && ExactMissing(missing, before) && missing <= from
      requires IsLoaded(before, contents, store, from, forbidden)
      ensures missingPrevOpHeaders !! contents
      ensures forall h :: h in missingPrevOpHeaders - forbidden ==> IsLoadable(h, from, forbidden)
    {
      hide IsLoadable;
      forall h | h in missingPrevOpHeaders - forbidden
        ensures IsLoadable(h, from, forbidden)
      {
        MissingIsLoadable(h, before, contents, from, forbidden);
      }
    }

    /** The missing headers were exact to begin with. */
    lemma MissingIsExact()
      requires Valid()
      ensures ExactMissing(missingPrevOpHeaders, contents)
    {
    }

    /** Whether no op has two headers here. */
    method VerifyUniqueOps() returns (unique: bool)
      requires Valid()
      ensures unique <==> forall g, h :: g in contents && h in contents && g.opHash == h.opHash ==> g == h
    {
      var rest := opHeadersForOp;
      unique := true;
      while rest != {} && unique
        invariant rest <= opHeadersForOp
        invariant unique ==> forall p, q :: p in opHeadersForOp - rest && q in opHeadersForOp && p.0 == q.0 ==> p == q
        invariant !unique ==> exists p, q :: p in opHeadersForOp && q in opHeadersForOp && p.0 == q.0 && p != q
      {
        var p :| p in rest;
        rest := rest - {p};
        if q :| q in opHeadersForOp && q.0 == p.0 && q != p {
          unique := false;
        }
      }
      if unique {
        forall g, h | g in contents && h in contents && g.opHash == h.opHash
          ensures g == h
        {
          assert (g.opHash, g) in opHeadersForOp && (h.opHash, h) in opHeadersForOp;
        }
      } else {
        var p, q :| p in opHeadersForOp && q in opHeadersForOp && p.0 == q.0 && p != q;
        assert (p.0, p.1) in opHeadersForOp && (q.0, q.1) in opHeadersForOp;
      }
    }
  }

  // ----- loading -----

  /** The limit holds, if there was room for another header to begin with. */
  ghost predicate KeepsLimit(before: set<Header>, contents: set<Header>, max: Option<nat>) {
    max.Some? && |before| < max.value ==> |contents| <= max.value
  }

  ghost predicate HasRoom(before: set<Header>, contents: set<Header>, max: Option<nat>) {
    max.Some? && |before| < max.value ==> |contents| < max.value
  }

  lemma OneMoreHeader(before: set<Header>, contents: set<Header>, h: Header, max: Option<nat>)
    requires HasRoom(before, contents, max)
    ensures KeepsLimit(before, contents + {h}, max)
    ensures max != Some(|contents + {h}|) ==> HasRoom(before, contents + {h}, max)
  {
  }

  /** What has been loaded came from the store, by ways back that meet no forbidden header. */
  ghost predicate IsLoaded(before: set<Header>, contents: set<Header>, store: set<Header>, from: set<Header>,
                           forbidden: set<Header>) {
    before <= contents && forall h :: h in contents - before ==> h in store && IsLoadable(h, from, forbidden)
  }

  /** Some of the headers are there, if there are any. */
  ghost predicate HoldsOne(hs: set<Header>, contents: set<Header>) {
    hs != {} ==> exists h :: h in hs && h in contents
  }

  lemma StillHoldsOne(hs: set<Header>, contents: set<Header>, more: set<Header>)
    requires contents <= more
    ensures HoldsOne(hs, contents) ==> HoldsOne(hs, more)
  {
  }

  lemma NowHoldsOne(hs: set<Header>, added: set<Header>, contents: set<Header>)
    requires added <= hs && added <= contents && (hs != {} ==> added != {})
    ensures HoldsOne(hs, contents)
  {
  }

  lemma LoadedIsAllowed(before: set<Header>, contents: set<Header>, store: set<Header>, from: set<Header>,
                        forbidden: set<Header>)
    requires IsLoaded(before, contents, store, from, forbidden)
    ensures contents - before !! forbidden
  {
    forall h | h in contents - before
      ensures h !in forbidden
    {
      var t :| t in from && LeadsBack(h, t, forbidden);
      EndIsAllowed(h, t, forbidden);
    }
  }

  lemma {:induction false} EndIsAllowed(h: Header, t: Header, forbidden: set<Header>)
    requires LeadsBack(h, t, forbidden)
    ensures h !in forbidden
    decreases t
  {
    if h != t {
      var p :| p in t.prevs && LeadsBack(h, p, forbidden);
      EndIsAllowed(h, p, forbidden);
    }
  }

  lemma LessToLoad(store: set<Header>, contents: set<Header>, added: set<Header>)
    requires added <= store
    ensures store - (contents + added) <= store - contents
    ensures added != {} && added !! contents ==> store - (contents + added) < store - contents
  {
  }

  lemma NoneBeyond(missing: set<Header>, forbidden: set<Header>)
    ensures missing - forbidden == {} ==> missing <= forbidden
  {
    forall h | h in missing && h !in forbidden
      ensures missing - forbidden != {}
    {
      assert h in missing - forbidden;
    }
  }

  lemma NothingLoaded(contents: set<Header>, store: set<Header>, from: set<Header>, forbidden: set<Header>,
                      max: Option<nat>)
    ensures IsLoaded(contents, contents, store, from, forbidden)
    ensures HasRoom(contents, contents, max)
    ensures KeepsLimit(contents, contents, max)
  {
  }

  lemma RoomKeepsLimit(before: set<Header>, contents: set<Header>, max: Option<nat>)
    requires HasRoom(before, contents, max)
    ensures KeepsLimit(before, contents, max)
  {
  }

  lemma LoadedMore(before: set<Header>, contents: set<Header>, added: set<Header>, store: set<Header>,
                   from: set<Header>, forbidden: set<Header>)
    requires IsLoaded(before, contents, store, from, forbidden)
    requires forall h :: h in added ==> h in store && IsLoadable(h, from, forbidden)
    ensures IsLoaded(before, contents + added, store, from, forbidden)
  {
  }

  lemma NextIsLoadable(next: set<Header>, from: set<Header>, forbidden: set<Header>)
    requires next <= from && next !! forbidden
    ensures forall h :: h in next ==> IsLoadable(h, from, forbidden)
  {
  }

  /** A way back from `t` to `h` meets no forbidden header. */
  ghost predicate LeadsBack(h: Header, t: Header, forbidden: set<Header>)
    decreases t
  {
    t !in forbidden && (h == t || exists p :: p in t.prevs && LeadsBack(h, p, forbidden))
  }

  lemma {:induction false} LeadsFurtherBack(p: Header, n: Header, t: Header, forbidden: set<Header>)
    requires LeadsBack(n, t, forbidden) && p in n.prevs && p !in forbidden
    ensures LeadsBack(p, t, forbidden)
    decreases t
  {
    if n == t {
      assert LeadsBack(p, p, forbidden);
    } else {
      var q :| q in t.prevs && LeadsBack(n, q, forbidden);
      LeadsFurtherBack(p, n, q, forbidden);
    }
  }

  ghost predicate IsLoadable(h: Header, from: set<Header>, forbidden: set<Header>) {
    exists t :: t in from && LeadsBack(h, t, forbidden)
  }

  /** What is missing after loading can be loaded next. */
  lemma MissingIsLoadable(h: Header, before: set<Header>, contents: set<Header>, from: set<Header>,
                          forbidden: set<Header>)
    requires before <= contents && IsMissingIn(h, contents) && h !in forbidden
    requires IsMissingIn(h, before) ==> h in from
    requires forall n :: n in contents - before ==> IsLoadable(n, from, forbidden)
    ensures IsLoadable(h, from, forbidden)
  {
    var n :| IsNextIn(h, n, contents);
    if n in before {
      assert IsNextIn(h, n, before);
      assert LeadsBack(h, h, forbidden);
    } else {
      assert n in contents - before;
      var t :| t in from && LeadsBack(n, t, forbidden);
      LeadsFurtherBack(h, n, t, forbidden);
    }
  }

  lemma {:induction false} LoadedHoldsWaysBack(h: Header, t: Header, contents: set<Header>, forbidden: set<Header>)
    requires t in contents && LeadsBack(h, t, forbidden)
    requires forall m :: IsMissingIn(m, contents) ==> m in forbidden
    ensures h in contents
    decreases t
  {
    if h != t {
      var p :| p in t.prevs && LeadsBack(h, p, forbidden);
      assert IsNextIn(p, t, contents);
      assert !IsMissingIn(p, contents);
      LoadedHoldsWaysBack(h, p, contents, forbidden);
    }
  }

  /** Loading an empty fragment to the end brings in exactly the headers on ways back that
      meet no forbidden one. */
  lemma LoadedIsExactlyLoadable(contents: set<Header>, from: set<Header>, forbidden: set<Header>)
    requires forall h :: h in contents ==> IsLoadable(h, from, forbidden)
    requires from - forbidden <= contents
    requires forall m :: IsMissingIn(m, contents) ==> m in forbidden
    ensures forall h :: h in contents <==> IsLoadable(h, from, forbidden)
  {
    forall h | IsLoadable(h, from, forbidden)
      ensures h in contents
    {
      var t :| t in from && LeadsBack(h, t, forbidden);
      LoadedHoldsWaysBack(h, t, contents, forbidden);
    }
  }

  lemma TerminalsAreContents(terminal: set<Header>, contents: set<Header>)
    requires ExactTerminals(terminal, contents)
    ensures terminal <= contents
  {
  }

  lemma NoneLeft(next: Rel<Header, Header>, before: set<Header>, prev: Header, h: Header)
    requires forall n :: (prev, n) in next <==> IsNextIn(prev, n, before) && n != h
    requires prev in h.prevs
    ensures Get(next, prev) == {} <==> IsUncovered(prev, h, before)
  {
    forall n
      ensures n in Get(next, prev) <==> IsNextIn(prev, n, before - {h})
    {
    }
    if n :| IsNextIn(prev, n, before - {h}) {
      assert n in Get(next, prev);
    }
  }

  lemma TerminalsStayTerminal(terminal: set<Header>, contents: set<Header>, after: set<Header>)
    requires ExactTerminals(terminal, contents) && ExactTerminals(after, terminal)
    ensures after == terminal
  {
    forall h | h in terminal
      ensures h in after
    {
      if n :| IsNextIn(h, n, terminal) {
        assert IsNextIn(h, n, contents);
      }
    }
  }

  /** Order independence: the headers decide the state of a fragment, so that whatever was
      added and removed in whatever order, equal contents mean equal indices; in particular
      removing a header undoes adding it, and a clone is like the original. */
  lemma ContentsDecideIndices(a: HistoryFragment, b: HistoryFragment)
    requires a.Valid() && b.Valid() && a.contents == b.contents
    ensures a.terminalOpHeaders == b.terminalOpHeaders && a.missingPrevOpHeaders == b.missingPrevOpHeaders
    ensures a.roots == b.roots && a.opHeadersForOp == b.opHeadersForOp && a.nextOpHeaders == b.nextOpHeaders
  {
    SameRelation(a.opHeadersForOp, b.opHeadersForOp);
    SameRelation(a.nextOpHeaders, b.nextOpHeaders);
  }
}
