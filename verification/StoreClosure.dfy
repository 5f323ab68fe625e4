/** The two ways in which the store collects all the ops that come before some ops. */
module StoreClosures {
  import opened Hashing
  import opened CausalOps

  /** `o` is one of `init` or comes before one of them. */
  ghost predicate IsUpTo(o: Op, init: set<Op>) {
    exists i :: i in init && (o == i || Precedes(o, i))
  }

  ghost predicate IsPrevOpsClosure(closure: set<Op>, init: set<Op>) {
    forall o :: o in closure <==> IsUpTo(o, init)
  }

  /** A path of predecessors leads from `i` down to `o`, and all of it was stored no earlier
      than the bound. */
  ghost predicate HasLatePath(o: Op, i: Op, sequences: map<Op, nat>, lowerBound: Option<nat>)
    requires PrevsApplied(sequences.Keys) && i in sequences
    decreases i
  {
    && (lowerBound.None? || sequences[i] >= lowerBound.value)
    && (o == i || exists p :: p in i.prevs && HasLatePath(o, p, sequences, lowerBound))
  }

  ghost predicate IsLateFrom(o: Op, init: set<Op>, sequences: map<Op, nat>, lowerBound: Option<nat>)
    requires init <= sequences.Keys && PrevsApplied(sequences.Keys)
  {
    exists i :: i in init && HasLatePath(o, i, sequences, lowerBound)
  }

  lemma {:induction false} LateEnd(o: Op, i: Op, sequences: map<Op, nat>, lowerBound: Option<nat>)
    requires PrevsApplied(sequences.Keys) && i in sequences && HasLatePath(o, i, sequences, lowerBound)
    ensures o in sequences && (lowerBound.None? || sequences[o] >= lowerBound.value)
    ensures o == i || Precedes(o, i)
    decreases i
  {
    if o != i {
      var p :| p in i.prevs && HasLatePath(o, p, sequences, lowerBound);
      LateEnd(o, p, sequences, lowerBound);
    }
  }

  lemma {:induction false} LateGoesOn(p: Op, o: Op, i: Op, sequences: map<Op, nat>, lowerBound: Option<nat>)
    requires PrevsApplied(sequences.Keys) && i in sequences && HasLatePath(o, i, sequences, lowerBound)
    requires p in o.prevs && p in sequences && (lowerBound.None? || sequences[p] >= lowerBound.value)
    ensures HasLatePath(p, i, sequences, lowerBound)
    decreases i
  {
    if o == i {
      assert HasLatePath(p, p, sequences, lowerBound);
    } else {
      var q :| q in i.prevs && HasLatePath(o, q, sequences, lowerBound);
      LateGoesOn(p, o, q, sequences, lowerBound);
    }
  }

  /** What the loop has found, and where it still has to look. */
  ghost predicate IsExplored(init: set<Op>, closure: set<Op>, pending: set<Op>, sequences: map<Op, nat>,
                             lowerBound: Option<nat>)
    requires init + closure + pending <= sequences.Keys && PrevsApplied(sequences.Keys)
  {
    && (forall o :: o in closure ==> IsLateFrom(o, init, sequences, lowerBound))
    && (forall o :: o in pending && (lowerBound.None? || sequences[o] >= lowerBound.value) ==>
          IsLateFrom(o, init, sequences, lowerBound))
    && (forall o :: o in init && (lowerBound.None? || sequences[o] >= lowerBound.value) ==> o in closure + pending)
    && (forall o, p {:trigger p in o.prevs, o in closure} :: o in closure && p in o.prevs ==>
          lowerBound.None? || sequences[p] >= lowerBound.value ==> p in closure + pending)
  }

  lemma PrevsAreLate(o: Op, init: set<Op>, sequences: map<Op, nat>, lowerBound: Option<nat>)
    requires init <= sequences.Keys && PrevsApplied(sequences.Keys)
    requires IsLateFrom(o, init, sequences, lowerBound)
    ensures o in sequences && o.prevs <= sequences.Keys
    ensures forall p :: p in o.prevs && (lowerBound.None? || sequences[p] >= lowerBound.value) ==>
              IsLateFrom(p, init, sequences, lowerBound)
  {
    var i :| i in init && HasLatePath(o, i, sequences, lowerBound);
    LateEnd(o, i, sequences, lowerBound);
    forall p | p in o.prevs && (lowerBound.None? || sequences[p] >= lowerBound.value)
      ensures IsLateFrom(p, init, sequences, lowerBound)
    {
      LateGoesOn(p, o, i, sequences, lowerBound);
    }
  }

  lemma ExploreOne(init: set<Op>, closure: set<Op>, pending: set<Op>, value: Op, sequences: map<Op, nat>,
                   lowerBound: Option<nat>)
    requires init + closure + pending <= sequences.Keys && PrevsApplied(sequences.Keys) && value in pending
    requires IsExplored(init, closure, pending, sequences, lowerBound)
    ensures !(lowerBound.None? || sequences[value] >= lowerBound.value) || value in closure ==>
              IsExplored(init, closure, pending - {value}, sequences, lowerBound)
    ensures value.prevs <= sequences.Keys
    ensures lowerBound.None? || sequences[value] >= lowerBound.value ==>
              IsExplored(init, closure + {value}, pending - {value} + (value.prevs - closure - {value}),
                         sequences, lowerBound)
  {
    if lowerBound.None? || sequences[value] >= lowerBound.value {
      PrevsAreLate(value, init, sequences, lowerBound);
    }
  }

  /** Walks back from `init`, stopping at what was stored before the bound, which is when the
      object itself was stored. What it finds is what can be reached without going below. */
  method LoadPrevOpsClosureFast(init: set<Op>, sequences: map<Op, nat>, lowerBound: Option<nat>)
    returns (closure: set<Op>)
    requires init <= sequences.Keys && PrevsApplied(sequences.Keys)
    ensures forall o :: o in closure <==> exists i :: i in init && HasLatePath(o, i, sequences, lowerBound)
    ensures forall o :: o in closure ==> o in sequences && (lowerBound.Some? ==> sequences[o] >= lowerBound.value)
    ensures IsPrevOpsClosure(closure, init) <==>
            forall o :: IsUpTo(o, init) ==> o in sequences && (lowerBound.Some? ==> sequences[o] >= lowerBound.value)
  {
    hide IsExplored, HasLatePath, Precedes;
    assert IsExplored(init, {}, init, sequences, lowerBound) by { StartExploring(init, sequences, lowerBound); }
    closure := {};
    var pending, discarded := init, {};
    while pending != {}
      invariant closure + pending <= sequences.Keys
      invariant discarded !! closure
      invariant IsExplored(init, closure, pending, sequences, lowerBound)
      invariant forall o :: o in discarded ==> o in sequences && lowerBound.Some? && sequences[o] < lowerBound.value
      decreases sequences.Keys - closure, pending
    {
      var value :| value in pending;
      ExploreOne(init, closure, pending, value, sequences, lowerBound);
      pending := pending - {value};
      if value !in closure {
        if lowerBound.None? || sequences[value] >= lowerBound.value {
          closure := closure + {value};
          pending := pending + if value in discarded then {} else value.prevs - closure;
          assert value.prevs - closure == value.prevs - (closure - {value}) - {value};
        } else {
          discarded := discarded + {value};
        }
      }
    }
    ExploredIsLatePaths(init, closure, sequences, lowerBound);
    FastIsPlainExactlyWhen(init, closure, sequences, lowerBound);
  }

  lemma StartExploring(init: set<Op>, sequences: map<Op, nat>, lowerBound: Option<nat>)
    requires init <= sequences.Keys && PrevsApplied(sequences.Keys)
    ensures IsExplored(init, {}, init, sequences, lowerBound)
  {
    forall o | o in init && (lowerBound.None? || sequences[o] >= lowerBound.value)
      ensures IsLateFrom(o, init, sequences, lowerBound)
    {
      assert HasLatePath(o, o, sequences, lowerBound);
    }
  }

  /** What has been explored to the end is exactly what has a late path. */
  lemma ExploredIsLatePaths(init: set<Op>, closure: set<Op>, sequences: map<Op, nat>, lowerBound: Option<nat>)
    requires init + closure <= sequences.Keys && PrevsApplied(sequences.Keys)
    requires IsExplored(init, closure, {}, sequences, lowerBound)
    ensures forall o :: o in closure <==> exists i :: i in init && HasLatePath(o, i, sequences, lowerBound)
    ensures forall o :: o in closure ==> lowerBound.None? || sequences[o] >= lowerBound.value
  {
    forall o, i | i in init && HasLatePath(o, i, sequences, lowerBound)
      ensures o in closure && (lowerBound.None? || sequences[o] >= lowerBound.value)
    {
      FollowPath(o, i, init, closure, sequences, lowerBound);
      LateEnd(o, i, sequences, lowerBound);
    }
  }

  lemma {:induction false} FollowPath(o: Op, i: Op, init: set<Op>, closure: set<Op>, sequences: map<Op, nat>,
                                      lowerBound: Option<nat>)
    requires init + closure <= sequences.Keys && PrevsApplied(sequences.Keys)
    requires IsExplored(init, closure, {}, sequences, lowerBound)
    requires i in sequences && HasLatePath(o, i, sequences, lowerBound) && (i in init || i in closure)
    ensures o in closure
    decreases i
  {
    hide IsLateFrom;
    assert i in closure;
    if o != i {
      var p :| p in i.prevs && HasLatePath(o, p, sequences, lowerBound);
      assert lowerBound.None? || sequences[p] >= lowerBound.value;
      FollowPath(o, p, init, closure, sequences, lowerBound);
    }
  }

  lemma {:induction false} PastHasLatePath(o: Op, i: Op, sequences: map<Op, nat>, lowerBound: Option<nat>)
    requires PrevsApplied(sequences.Keys) && i in sequences && (o == i || Precedes(o, i))
    requires forall p :: p == i || Precedes(p, i) ==>
               p in sequences && (lowerBound.None? || sequences[p] >= lowerBound.value)
    ensures HasLatePath(o, i, sequences, lowerBound)
    decreases i
  {
    if o != i {
      var p :| p in i.prevs && (o == p || Precedes(o, p));
      forall q | q == p || Precedes(q, p)
        ensures q in sequences && (lowerBound.None? || sequences[q] >= lowerBound.value)
      {
        assert Precedes(q, i);
      }
      PastHasLatePath(o, p, sequences, lowerBound);
    }
  }

  /** The fast closure is the plain one exactly when nothing in the plain one was stored before
      the bound, as when the object was stored before any of its ops. */
  lemma FastIsPlainExactlyWhen(init: set<Op>, closure: set<Op>, sequences: map<Op, nat>, lowerBound: Option<nat>)
    requires init <= sequences.Keys && PrevsApplied(sequences.Keys)
    requires forall o :: o in closure <==> exists i :: i in init && HasLatePath(o, i, sequences, lowerBound)
    ensures IsPrevOpsClosure(closure, init) <==>
            forall o :: IsUpTo(o, init) ==> o in sequences && (lowerBound.Some? ==> sequences[o] >= lowerBound.value)
  {
    forall o, i | i in init && HasLatePath(o, i, sequences, lowerBound)
      ensures o in sequences && (lowerBound.None? || sequences[o] >= lowerBound.value) && IsUpTo(o, init)
    {
      LateEnd(o, i, sequences, lowerBound);
    }
    if forall o :: IsUpTo(o, init) ==> o in sequences && (lowerBound.Some? ==> sequences[o] >= lowerBound.value) {
      forall o | IsUpTo(o, init)
        ensures o in closure
      {
        var i :| i in init && (o == i || Precedes(o, i));
        forall p | p == i || Precedes(p, i)
          ensures p in sequences && (lowerBound.None? || sequences[p] >= lowerBound.value)
        {
          assert IsUpTo(p, init);
        }
        PastHasLatePath(o, i, sequences, lowerBound);
      }
    }
  }

  lemma ExploresPrevs(init: set<Op>, o: Op)
    requires IsUpTo(o, init)
    ensures forall p :: p in o.prevs ==> IsUpTo(p, init)
  {
    var i :| i in init && (o == i || Precedes(o, i));
    forall p | p in o.prevs
      ensures IsUpTo(p, init)
    {
      PrevPrecedes(p, o, i);
    }
  }

  /** The plain closure, for the predecessors of ops. */
  method LoadPrevOpsClosure(init: set<Op>, stored: set<Op>) returns (closure: set<Op>)
    requires init <= stored && PrevsApplied(stored)
    ensures IsPrevOpsClosure(closure, init)
  {
    closure := {};
    var pending := init;
    while pending != {}
      invariant closure + pending <= stored && closure !! pending && init <= closure + pending
      invariant forall o :: o in closure + pending ==> IsUpTo(o, init)
      invariant forall o, p :: o in closure && p in o.prevs ==> p in closure + pending
      decreases stored - closure
    {
      var value :| value in pending;
      pending := pending - {value};
      closure := closure + {value};
      ExploresPrevs(init, value);
      pending := pending + (set p | p in value.prevs && p !in closure);
    }
    forall o | IsUpTo(o, init)
      ensures o in closure
    {
      var i :| i in init && (o == i || Precedes(o, i));
      ClosedHoldsPast(closure, o, i);
    }
  }

  lemma {:induction false} ClosedHoldsPast(closure: set<Op>, o: Op, i: Op)
    requires PrevsApplied(closure) && i in closure && (o == i || Precedes(o, i))
    ensures o in closure
    decreases i
  {
    if o != i {
      var p :| p in i.prevs && (o == p || Precedes(o, p));
      ClosedHoldsPast(closure, o, p);
    }
  }
}
