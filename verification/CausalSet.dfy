/** A replicated set whose additions and deletions can be undone and redone by cascaded
    invalidations, on top of the causal delivery that every mutable object does. */
module CausalSets {
  import opened Hashing
  import opened MultiMaps
  import opened CausalOps

  /** An addition is a member while it is valid and no valid deletion is aimed at it. */
  ghost predicate IsCurrentIn(a: Op, s: set<Op>) {
    && a in s && a.kind.Add? && IsValidIn(a, s)
    && forall d :: d in s && d.kind.InvalidateAfter? && d.kind.invalidated == a ==> !IsValidIn(d, s)
  }

  /** The ops that one more op can make valid or invalid: the op itself, or, for a cascaded
      op, its final target. */
  ghost function Affected(op: Op): Op {
    if IsCascade(op) then FinalTarget(op) else op
  }

  lemma ValidityElsewhere(s: set<Op>, op: Op, o: Op)
    requires PrevsApplied(s) && AllWellFormed(s) && op !in s && WellFormed(op)
    requires o != Affected(op)
    ensures IsValidIn(o, s + {op}) <==> IsValidIn(o, s)
  {
  }

  lemma NewOpIsValid(s: set<Op>, op: Op)
    requires PrevsApplied(s) && AllWellFormed(s) && op !in s && WellFormed(op) && !IsCascade(op)
    ensures IsValidIn(op, s + {op})
  {
    NewOpIsUntouched(s, op);
  }

  /** Going from `before` to `after` only the validity of `f` can have changed. */
  ghost predicate OnlyChanges(before: set<Op>, after: set<Op>, f: Op) {
    && before <= after && f in after
    && (forall o :: o in after && o != f && !IsCascade(o) ==> o in before)
    && (forall o :: o != f ==> (IsValidIn(o, after) <==> IsValidIn(o, before)))
  }

  lemma OneMoreOpChanges(s: set<Op>, op: Op)
    requires PrevsApplied(s) && AllWellFormed(s) && op !in s && WellFormed(op)
    requires forall p :: p in op.prevs ==> p in s
    ensures OnlyChanges(s, s + {op}, Affected(op))
    ensures PrevsApplied(s + {op}) && AllWellFormed(s + {op})
    ensures IsCascade(op) ==> FinalTarget(op) in s
  {
    if IsCascade(op) {
      FinalTargetApplied(s + {op}, op);
      assert FinalTarget(op) != op;
    }
    forall o | o != Affected(op)
      ensures IsValidIn(o, s + {op}) <==> IsValidIn(o, s)
    {
      ValidityElsewhere(s, op, o);
    }
  }

  lemma CurrentElsewhere(before: set<Op>, after: set<Op>, f: Op, a: Op)
    requires OnlyChanges(before, after, f)
    requires !(f.kind.Add? && a == f) && !(f.kind.InvalidateAfter? && f.kind.invalidated == a)
    ensures IsCurrentIn(a, after) <==> IsCurrentIn(a, before)
  {
  }

  /** The element is a member: some current addition carries it. */
  ghost predicate HasIn(e: Hash, s: set<Op>) {
    exists a :: IsCurrentIn(a, s) && a.kind == Add(e)
  }

  /** Of the undos whose chain ends at `o`, every applied one has been redone. */
  ghost predicate IsInForce(o: Op, s: set<Op>) {
    forall u :: u in s && u.kind.Cascade? && u.kind.undo && LeadsTo(u, o) ==>
                  exists r :: r in s && r.kind.Cascade? && !r.kind.undo && r.kind.target == u
  }

  /** Some addition of the element is in force, and no deletion of that addition is. */
  ghost predicate IsMember(e: Hash, s: set<Op>) {
    exists a :: a in s && a.kind == Add(e) && IsInForce(a, s) &&
                forall d :: d in s && d.kind == InvalidateAfter(a) ==> !IsInForce(d, s)
  }

  lemma ValidIsInForce(o: Op, s: set<Op>)
    ensures IsValidIn(o, s) <==> IsInForce(o, s)
  {
    forall u | u in s && u.kind.Cascade?
      ensures FinalTarget(u) == o <==> LeadsTo(u, o)
    {
      FinalTargetEndsChain(u, o);
    }
    forall u | u in s
      ensures (exists r :: r in s && IsRedoOf(r, u)) <==>
              exists r :: r in s && r.kind.Cascade? && !r.kind.undo && r.kind.target == u
    {
      if r :| r in s && r.kind.Cascade? && !r.kind.undo && r.kind.target == u {
        assert IsRedoOf(r, u);
      }
    }
    hide LeadsTo, FinalTarget;
  }

  /** Who is a member, by the chains of undos and redos alone. */
  lemma MembershipLaw(e: Hash, s: set<Op>)
    ensures HasIn(e, s) <==> IsMember(e, s)
  {
    hide IsValidIn, IsInForce;
    forall o
      ensures IsValidIn(o, s) <==> IsInForce(o, s)
    {
      ValidIsInForce(o, s);
    }
    forall a | a in s && a.kind == Add(e)
      ensures IsCurrentIn(a, s) <==>
              IsInForce(a, s) && forall d :: d in s && d.kind == InvalidateAfter(a) ==> !IsInForce(d, s)
    {
    }
  }

  /** An addition that is in force comes back when its only deletion is undone, until that is
      redone. */
  lemma UndoneDeletionRestores(a: Op, d: Op, u: Op, s: set<Op>)
    requires a in s && a.kind.Add? && IsInForce(a, s)
    requires forall x :: x in s && x.kind == InvalidateAfter(a) ==> x == d
    requires d.kind == InvalidateAfter(a) && u in s && u.kind == Cascade(true, d)
    requires forall r :: r in s && r.kind.Cascade? && r.kind.target == u ==> r.kind.undo
    ensures HasIn(a.kind.element, s)
  {
    assert IsChain([u, d], u, d);
    assert !IsInForce(d, s);
    assert IsMember(a.kind.element, s);
    MembershipLaw(a.kind.element, s);
  }

  /** Ops that an object takes: well-formed ones, and deletions only of additions. */
  ghost predicate Acceptable(ops: set<Op>) {
    forall o :: o in ops ==> WellFormed(o) && (o.kind.InvalidateAfter? ==> o.kind.invalidated.kind.Add?)
  }

  /** What can happen to an object while one of its methods waits: an op is announced, or one
      is made here. */
  datatype Event = Arrived(op: Op) | Made(draft: Op, explicitPrevs: bool)

  ghost function BufferedOf(events: seq<Event>): set<Op> {
    set e | e in events && e.Arrived? :: e.op
  }

  /** Each of the ops was made from a draft, whose predecessors may have been filled in. */
  ghost predicate AreMadeFrom(made: set<Op>, events: seq<Event>) {
    forall m :: m in made ==> exists e :: e in events && e.Made? && m == e.draft.(prevs := m.prevs)
  }

  /** To the list of unsaved ops only ops made here were added, and all of those that were not
      known from elsewhere. */
  ghost predicate SavesMade(before: seq<Op>, after: seq<Op>, known: set<Op>, made: set<Op>) {
    && before <= after
    && (forall i :: |before| <= i < |after| ==> after[i] in made)
    && (forall o :: o in made && o !in known ==> o in after[|before|..])
  }

  lemma SavesOn(u: seq<Op>, v: seq<Op>, w: seq<Op>, known: set<Op>, later: set<Op>, all: set<Op>,
                made: set<Op>, others: set<Op>)
    requires SavesMade(u, v, known, made) && SavesMade(v, w, later, others)
    requires known <= all && later <= all + made
    ensures SavesMade(u, w, all, made + others)
  {
    forall o | o in made + others && o !in all
      ensures o in w[|u|..]
    {
      assert w[|u|..] == v[|u|..] + w[|v|..];
    }
  }

  class CausalSet {
    /** The ops in the order in which they were applied. */
    ghost var log: seq<Op>

    // what every mutable object keeps
    var lock: bool
    var allAppliedOps: set<Op>
    var terminalOps: set<Op>
    var activeCascInvsPerOp: Rel<Op, Op>
    var unsavedOps: seq<Op>
    var unappliedOps: set<Op>

    // the indices of the set
    var validAddOpsPerElmt: Rel<Hash, Op>
    var validDeleteOpsPerAddOp: Rel<Op, Op>
    var currentAddOps: set<Op>
    var currentAddOpsPerElmt: Rel<Hash, Op>
    var allElements: set<Hash>

    ghost predicate HistoryExact()
      reads `allAppliedOps, `terminalOps, `activeCascInvsPerOp
    {
      && PrevsApplied(allAppliedOps) && AllWellFormed(allAppliedOps)
      && (forall o :: o in terminalOps <==> IsTerminalIn(o, allAppliedOps))
      && (forall f, u :: (f, u) in activeCascInvsPerOp <==> IsActiveIn(f, u, allAppliedOps))
    }

    ghost predicate AddsFor(applied: set<Op>)
      reads `validAddOpsPerElmt, `allElements
    {
      && (forall e, a :: (e, a) in validAddOpsPerElmt <==> a in applied && a.kind == Add(e) && IsValidIn(a, applied))
      && (forall e :: e in allElements <==> exists a :: a in applied && a.kind == Add(e))
    }

    ghost predicate DeletesFor(applied: set<Op>)
      reads `validDeleteOpsPerAddOp
    {
      forall a, d :: (a, d) in validDeleteOpsPerAddOp <==>
                     d in applied && d.kind == InvalidateAfter(a) && IsValidIn(d, applied)
    }

    ghost predicate CurrentFor(applied: set<Op>)
      reads `currentAddOps, `currentAddOpsPerElmt
    {
      && (forall a :: a in currentAddOps <==> IsCurrentIn(a, applied))
      && (forall e, a :: (e, a) in currentAddOpsPerElmt <==> a.kind == Add(e) && IsCurrentIn(a, applied))
    }

    ghost predicate IndicesFor(applied: set<Op>)
      reads `validAddOpsPerElmt, `validDeleteOpsPerAddOp, `currentAddOps, `currentAddOpsPerElmt, `allElements
    {
      AddsFor(applied) && DeletesFor(applied) && CurrentFor(applied)
    }

    /** Ops have been applied in causal order, each of them once, and every field is a
        function of the set of applied ops. */
    ghost predicate Valid()
      reads this
    {
      && InCausalOrder(log) && SetOf(log) == allAppliedOps
      && HistoryExact() && IndicesFor(allAppliedOps)
      && (forall o :: o in allAppliedOps && o.kind.InvalidateAfter? ==> o.kind.invalidated.kind.Add?)
      && Acceptable(unappliedOps)
    }

    constructor ()
      ensures Valid() && allAppliedOps == {} && unappliedOps == {} && unsavedOps == [] && !lock
    {
      log, lock := [], false;
      allAppliedOps, terminalOps, unsavedOps, unappliedOps := {}, {}, [], {};
      activeCascInvsPerOp, validAddOpsPerElmt, validDeleteOpsPerAddOp := {}, {}, {};
      currentAddOps, currentAddOpsPerElmt, allElements := {}, {}, {};
    }

    predicate IsValidOp(op: Op)
      reads `activeCascInvsPerOp
    {
      Get(activeCascInvsPerOp, op) == {}
    }

    lemma ValidOpMeaning(op: Op)
      requires HistoryExact()
      ensures IsValidOp(op) <==> IsValidIn(op, allAppliedOps)
    {
      ValidMeansNoneActive(op, allAppliedOps);
      if u :| IsActiveIn(op, u, allAppliedOps) {
        assert u in Get(activeCascInvsPerOp, op);
      }
      if u :| u in Get(activeCascInvsPerOp, op) {
        assert IsActiveIn(op, u, allAppliedOps);
      }
    }

    method UpdateValidAdds(op: Op, valid: bool, cascade: bool, ghost before: set<Op>)
      requires AddsFor(before) && OnlyChanges(before, allAppliedOps, op) && op.kind.Add?
      requires (valid <==> IsValidIn(op, allAppliedOps)) && (cascade ==> op in before)
      modifies `validAddOpsPerElmt, `allElements
      ensures AddsFor(allAppliedOps)
    {
      hide IsValidIn;
      var elementHash := op.kind.element;
      if valid {
        validAddOpsPerElmt := validAddOpsPerElmt + {(elementHash, op)};
      } else {
        validAddOpsPerElmt := validAddOpsPerElmt - {(elementHash, op)};
      }
      if !cascade {
        allElements := allElements + {elementHash};
      }
    }

    method UpdateValidDeletes(op: Op, valid: bool, ghost before: set<Op>)
      requires DeletesFor(before) && OnlyChanges(before, allAppliedOps, op) && op.kind.InvalidateAfter?
      requires valid <==> IsValidIn(op, allAppliedOps)
      modifies `validDeleteOpsPerAddOp
      ensures DeletesFor(allAppliedOps)
    {
      hide IsValidIn;
      if valid {
        validDeleteOpsPerAddOp := validDeleteOpsPerAddOp + {(op.kind.invalidated, op)};
      } else {
        validDeleteOpsPerAddOp := validDeleteOpsPerAddOp - {(op.kind.invalidated, op)};
      }
    }

    /** Decides again whether an addition is current; reports a change of membership. */
    method UpdateCurrent(addOp: Op, ghost before: set<Op>) returns (mutated: bool)
      requires AddsFor(allAppliedOps) && DeletesFor(allAppliedOps) && CurrentFor(before) && addOp.kind.Add?
      requires forall a :: a != addOp ==> (IsCurrentIn(a, allAppliedOps) <==> IsCurrentIn(a, before))
      modifies `currentAddOps, `currentAddOpsPerElmt
      ensures CurrentFor(allAppliedOps)
      ensures mutated <==> (HasIn(addOp.kind.element, before) <==> !HasIn(addOp.kind.element, allAppliedOps))
    {
      var elementHash := addOp.kind.element;
      CurrentMeansMember(elementHash, before);
      var wasInBefore := Get(currentAddOpsPerElmt, elementHash) != {};
      CurrentMeaning(addOp);
      if (elementHash, addOp) in validAddOpsPerElmt && Get(validDeleteOpsPerAddOp, addOp) == {} {
        currentAddOps := currentAddOps + {addOp};
        currentAddOpsPerElmt := currentAddOpsPerElmt + {(elementHash, addOp)};
      } else {
        currentAddOps := currentAddOps - {addOp};
        currentAddOpsPerElmt := currentAddOpsPerElmt - {(elementHash, addOp)};
      }
      CurrentMeansMember(elementHash, allAppliedOps);
      var isInNow := Get(currentAddOpsPerElmt, elementHash) != {};
      mutated := wasInBefore != isInNow;
    }

    lemma CurrentMeaning(a: Op)
      requires AddsFor(allAppliedOps) && DeletesFor(allAppliedOps) && a.kind.Add?
      ensures (a.kind.element, a) in validAddOpsPerElmt && Get(validDeleteOpsPerAddOp, a) == {} <==>
              IsCurrentIn(a, allAppliedOps)
    {
    }

    lemma CurrentMeansMember(e: Hash, applied: set<Op>)
      requires CurrentFor(applied)
      ensures Get(currentAddOpsPerElmt, e) != {} <==> HasIn(e, applied)
    {
    }

    /** Brings the indices up to date with a change of the validity of `op`, and reports
        whether some element entered or left the set. */
    method Mutate(op: Op, valid: bool, cascade: bool, ghost before: set<Op>) returns (mutated: bool)
      requires IndicesFor(before) && OnlyChanges(before, allAppliedOps, op)
      requires valid <==> IsValidIn(op, allAppliedOps)
      requires op.kind.InvalidateAfter? ==> op.kind.invalidated.kind.Add?
      requires cascade ==> op in before
      modifies `validAddOpsPerElmt, `validDeleteOpsPerAddOp, `currentAddOps, `currentAddOpsPerElmt, `allElements
      ensures IndicesFor(allAppliedOps)
      ensures mutated <==> exists e :: HasIn(e, before) != HasIn(e, allAppliedOps)
    {
      mutated := false;
      ghost var addOp := if op.kind.InvalidateAfter? then op.kind.invalidated else op;
      forall a | a != addOp || !(op.kind.Add? || op.kind.InvalidateAfter?)
        ensures IsCurrentIn(a, allAppliedOps) <==> IsCurrentIn(a, before)
      {
        CurrentElsewhere(before, allAppliedOps, op, a);
      }
      hide IsValidIn, IsCurrentIn, OnlyChanges;
      if op.kind.Add? {
        UpdateValidAdds(op, valid, cascade, before);
        mutated := UpdateCurrent(op, before);
      } else if op.kind.InvalidateAfter? {
        UpdateValidDeletes(op, valid, before);
        mutated := UpdateCurrent(op.kind.invalidated, before);
      }
    }

    method RecordOp(op: Op)
      requires HistoryExact() && op !in allAppliedOps && WellFormed(op)
      requires forall p :: p in op.prevs ==> p in allAppliedOps
      modifies `allAppliedOps, `terminalOps
      ensures allAppliedOps == old(allAppliedOps) + {op}
      ensures forall o :: o in terminalOps <==> IsTerminalIn(o, allAppliedOps)
    {
      NewOpIsUntouched(allAppliedOps, op);
      terminalOps := terminalOps - op.prevs + {op};
      allAppliedOps := allAppliedOps + {op};
    }

    /** Enters an undo among the active invalidations, or takes out the undo that a redo
        targets. */
    method RecordCascade(op: Op, ghost before: set<Op>)
      requires PrevsApplied(before) && AllWellFormed(before) && op !in before && WellFormed(op)
      requires allAppliedOps == before + {op}
      requires forall f, u :: (f, u) in activeCascInvsPerOp <==> IsActiveIn(f, u, before)
      modifies `activeCascInvsPerOp
      ensures forall f, u :: (f, u) in activeCascInvsPerOp <==> IsActiveIn(f, u, allAppliedOps)
    {
      if IsCascade(op) {
        var finalTarget := GetFinalTargetOp(op);
        if op.kind.undo {
          activeCascInvsPerOp := activeCascInvsPerOp + {(finalTarget, op)};
        } else {
          activeCascInvsPerOp := activeCascInvsPerOp - {(finalTarget, op.kind.target)};
        }
      }
      forall f, u
        ensures (f, u) in activeCascInvsPerOp <==> IsActiveIn(f, u, allAppliedOps)
      {
        ActiveAfter(before, op, f, u);
        if IsRedoOf(op, u) && IsActiveIn(f, u, before) {
          assert FinalTarget(op) == FinalTarget(u);
        }
      }
    }

    /** Records a new op, and finds the op whose validity it decides. Unless `shouldMutate`
        holds, the validity of that op is what it was. */
    method Admit(op: Op, isNew: bool) returns (finalTarget: Op, isValidNow: bool, isCascade: bool, shouldMutate: bool)
      requires HistoryExact() && InCausalOrder(log) && SetOf(log) == allAppliedOps
      requires WellFormed(op) && op !in allAppliedOps && forall p :: p in op.prevs ==> p in allAppliedOps
      modifies `log, `allAppliedOps, `terminalOps, `activeCascInvsPerOp, `unsavedOps
      ensures HistoryExact() && InCausalOrder(log) && SetOf(log) == allAppliedOps
      ensures allAppliedOps == old(allAppliedOps) + {op}
      ensures unsavedOps == old(unsavedOps) + if isNew then [op] else []
      ensures finalTarget in allAppliedOps && OnlyChanges(old(allAppliedOps), allAppliedOps, finalTarget)
      ensures isValidNow <==> IsValidIn(finalTarget, allAppliedOps)
      ensures isCascade || !shouldMutate ==> finalTarget in old(allAppliedOps)
      ensures !shouldMutate ==> (IsValidIn(finalTarget, old(allAppliedOps)) <==> isValidNow)
    {
      hide IsValidIn, IsTerminalIn, IsActiveIn, AllWellFormed, PrevsApplied, WellFormed, OnlyChanges, InCausalOrder;
      ghost var before := allAppliedOps;
      OneMoreOpChanges(before, op);
      OneMoreInOrder(log, op);
      log := log + [op];
      finalTarget, isCascade := op, false;
      var wasValid := true;
      if IsCascade(op) {
        finalTarget := GetFinalTargetOp(op);
        ValidOpMeaning(finalTarget);
        wasValid := IsValidOp(finalTarget);
        isCascade := IsCascade(op.kind.target);
      } else {
        NewOpIsValid(before, op);
      }
      RecordOp(op);
      if isNew {
        unsavedOps := unsavedOps + [op];
      }
      RecordCascade(op, before);
      ValidOpMeaning(finalTarget);
      isValidNow := if IsCascade(op) then IsValidOp(finalTarget) else true;
      shouldMutate := !IsCascade(op) || wasValid != isValidNow;
    }

    /** Applies an op that arrives after its predecessors; applying it again does nothing. */
    method Apply(op: Op, isNew: bool) returns (applied: bool)
      requires Valid() && WellFormed(op) && (op.kind.InvalidateAfter? ==> op.kind.invalidated.kind.Add?)
      requires op !in allAppliedOps ==> forall p :: p in op.prevs ==> p in allAppliedOps
      modifies `log, `allAppliedOps, `terminalOps, `activeCascInvsPerOp, `unsavedOps, `validAddOpsPerElmt,
               `validDeleteOpsPerAddOp, `currentAddOps, `currentAddOpsPerElmt, `allElements
      ensures Valid()
      ensures allAppliedOps == old(allAppliedOps) + {op}
      ensures applied <==> op !in old(allAppliedOps)
      ensures unsavedOps == old(unsavedOps) + if applied && isNew then [op] else []
    {
      hide HistoryExact, IndicesFor, IsValidIn, WellFormed, OnlyChanges, InCausalOrder, Acceptable, SetOf;
      if op in allAppliedOps {
        assert allAppliedOps == allAppliedOps + {op};
        return false;
      }
      ghost var before := allAppliedOps;
      var finalTarget, isValidNow, isCascade, shouldMutate := Admit(op, isNew);
      if shouldMutate {
        var mutated := Mutate(finalTarget, isValidNow, isCascade, before);
      } else {
        NothingChanges(before, finalTarget);
      }
      applied := true;
    }

    lemma NothingChanges(before: set<Op>, f: Op)
      requires IndicesFor(before) && OnlyChanges(before, allAppliedOps, f) && f in before
      requires IsValidIn(f, before) <==> IsValidIn(f, allAppliedOps)
      ensures IndicesFor(allAppliedOps)
    {
      hide IsValidIn;
    }

    // ----- delivery -----

    predicate CanApplyOp(op: Op)
      reads `allAppliedOps
    {
      op.prevs <= allAppliedOps
    }

    /** Applies an op made here. Without explicit predecessors it follows the terminal ops;
        with explicit ones it is refused unless they have all been applied. */
    method ApplyNewOp(draft: Op, explicitPrevs: bool) returns (op: Option<Op>)
      requires Valid() && (draft.kind.InvalidateAfter? ==> draft.kind.invalidated.kind.Add?)
      requires WellFormed(if explicitPrevs then draft else draft.(prevs := terminalOps))
      modifies this
      ensures Valid() && unappliedOps == old(unappliedOps) && lock == old(lock)
      ensures op.None? <==> explicitPrevs && !(draft.prevs <= old(allAppliedOps))
      ensures op.Some? ==>
                && op.value == (if explicitPrevs then draft else draft.(prevs := old(terminalOps)))
                && allAppliedOps == old(allAppliedOps) + {op.value}
                && unsavedOps == old(unsavedOps) + if op.value in old(allAppliedOps) then [] else [op.value]
      ensures op.None? ==> unchanged(this)
    {
      var ready := draft;
      if explicitPrevs {
        if !(draft.prevs <= allAppliedOps) {
          return None;
        }
      } else {
        ready := draft.(prevs := terminalOps);
      }
      var applied := Apply(ready, true);
      op := Some(ready);
    }

    /** While this object waits, an announced op is buffered, or an op is made here, if it is
        a valid one. */
    method Happen(event: Event) returns (made: set<Op>)
      requires Valid() && (event.Arrived? ==> Acceptable({event.op}))
      modifies this
      ensures Valid() && lock == old(lock)
      ensures unappliedOps == old(unappliedOps) + BufferedOf([event])
      ensures allAppliedOps == old(allAppliedOps) + made && AreMadeFrom(made, [event])
      ensures SavesMade(old(unsavedOps), unsavedOps, old(allAppliedOps), made)
      ensures event.Made? ==>
                var op := if event.explicitPrevs then event.draft else event.draft.(prevs := old(terminalOps));
                made == if Acceptable({op}) && op.prevs <= old(allAppliedOps) then {op} else {}
    {
      hide HistoryExact, IndicesFor, InCausalOrder, WellFormed;
      TerminalsAreApplied();
      made := {};
      match event
      case Arrived(op) =>
        AcceptableUnion(unappliedOps, {op});
        unappliedOps := unappliedOps + {op};
      case Made(draft, explicitPrevs) =>
        if (draft.kind.InvalidateAfter? ==> draft.kind.invalidated.kind.Add?) &&
           WellFormed(if explicitPrevs then draft else draft.(prevs := terminalOps)) {
          var op := ApplyNewOp(draft, explicitPrevs);
          if op.Some? {
            made := {op.value};
            assert op.value == draft.(prevs := op.value.prevs) && event in [event];
          }
        }
    }

    lemma TerminalsAreApplied()
      requires HistoryExact()
      ensures terminalOps <= allAppliedOps
    {
    }

    /** While this object waits, any number of the events to come happen. */
    method Await(events: seq<Event>) returns (n: nat, made: set<Op>)
      requires Valid() && Acceptable(BufferedOf(events))
      modifies this
      ensures Valid() && n <= |events| && lock == old(lock)
      ensures unappliedOps == old(unappliedOps) + BufferedOf(events[..n])
      ensures allAppliedOps == old(allAppliedOps) + made && AreMadeFrom(made, events[..n])
      ensures SavesMade(old(unsavedOps), unsavedOps, old(allAppliedOps), made)
    {
      hide HistoryExact, IndicesFor, InCausalOrder, Acceptable, BufferedOf, AreMadeFrom, SavesMade;
      n, made := 0, {};
      NothingHappened(events, unsavedOps);
      var count: nat :| count <= |events|;
      while n < count
        invariant Valid() && n <= count && lock == old(lock)
        invariant unappliedOps == old(unappliedOps) + BufferedOf(events[..n])
        invariant allAppliedOps == old(allAppliedOps) + made && AreMadeFrom(made, events[..n])
        invariant SavesMade(old(unsavedOps), unsavedOps, old(allAppliedOps), made)
      {
        NextIsAcceptable(events, n);
        ghost var saved, applied := unsavedOps, allAppliedOps;
        var more := Happen(events[n]);
        SavesOn(old(unsavedOps), saved, unsavedOps, old(allAppliedOps), applied, old(allAppliedOps), made, more);
        assert events[n..][..1] == [events[n]];
        EventsSplit(events, n, 1);
        MadeSplit(events, n, 1, made, more);
        made := made + more;
        n := n + 1;
      }
    }

    /** One round of the pending loop, over what was buffered when it started. */
    method ApplyApplicable(events: seq<Event>) returns (toRemove: set<Op>, n: nat, made: set<Op>)
      requires Valid() && Acceptable(BufferedOf(events))
      modifies this
      ensures Valid() && n <= |events| && lock == old(lock)
      ensures unappliedOps == old(unappliedOps) + BufferedOf(events[..n])
      ensures toRemove <= old(unappliedOps) && allAppliedOps == old(allAppliedOps) + toRemove + made
      ensures AreMadeFrom(made, events[..n])
      ensures SavesMade(old(unsavedOps), unsavedOps, old(allAppliedOps) + toRemove, made)
      ensures toRemove == {} ==> n == 0 && forall o :: o in unappliedOps ==> !(o.prevs <= allAppliedOps)
    {
      hide HistoryExact, IndicesFor, InCausalOrder, Acceptable, BufferedOf, AreMadeFrom, SavesMade;
      toRemove, n, made := {}, 0, {};
      NothingHappened(events, unsavedOps);
      var pending := unappliedOps;
      while pending != {}
        invariant Valid() && n <= |events| && lock == old(lock) && pending <= old(unappliedOps)
        invariant unappliedOps == old(unappliedOps) + BufferedOf(events[..n])
        invariant toRemove <= old(unappliedOps) && allAppliedOps == old(allAppliedOps) + toRemove + made
        invariant AreMadeFrom(made, events[..n])
        invariant SavesMade(old(unsavedOps), unsavedOps, old(allAppliedOps) + toRemove, made)
        invariant toRemove == {} ==> n == 0 && forall o :: o in unappliedOps - pending ==> !(o.prevs <= allAppliedOps)
      {
        var op :| op in pending;
        pending := pending - {op};
        if CanApplyOp(op) {
          AcceptableMember(unappliedOps, op);
          assert unsavedOps + [] == unsavedOps;
          var applied := Apply(op, false);
          RestIsAcceptable(events, n);
          ghost var saved, now := unsavedOps, allAppliedOps;
          var more, others := Await(events[n..]);
          SavesOn(old(unsavedOps), saved, unsavedOps, old(allAppliedOps) + toRemove, now,
                  old(allAppliedOps) + (toRemove + {op}), made, others);
          EventsSplit(events, n, more);
          MadeSplit(events, n, more, made, others);
          n, made := n + more, made + others;
          toRemove := toRemove + {op};
        }
      }
    }

    /** A round, and the removal of what it applied; another one follows if it applied
        something or if more ops were buffered in the meantime. */
    method Round(events: seq<Event>) returns (go: bool, n: nat, made: set<Op>)
      requires Valid() && Acceptable(BufferedOf(events))
      modifies this
      ensures Valid() && n <= |events| && lock == old(lock) && AreMadeFrom(made, events[..n])
      ensures SavesMade(old(unsavedOps), unsavedOps, old(allAppliedOps + unappliedOps) + BufferedOf(events[..n]), made)
      ensures old(allAppliedOps) + made <= allAppliedOps
      ensures allAppliedOps + unappliedOps == old(allAppliedOps + unappliedOps) + BufferedOf(events[..n]) + made
      ensures go && n == 0 ==> unappliedOps < old(unappliedOps)
      ensures !go ==> n == 0 && unappliedOps == old(unappliedOps)
      ensures !go ==> forall o :: o in unappliedOps ==> !(o.prevs <= allAppliedOps)
    {
      hide HistoryExact, IndicesFor, Acceptable, InCausalOrder, SetOf, BufferedOf, AreMadeFrom, SavesMade;
      NothingHappened(events, unsavedOps);
      var pending := unappliedOps;
      var toRemove;
      toRemove, n, made := ApplyApplicable(events);
      go := toRemove != {} || |unappliedOps| > |pending|;
      AcceptableSubset(unappliedOps, unappliedOps - toRemove);
      NothingIsLost(pending, old(allAppliedOps), BufferedOf(events[..n]), toRemove, made);
      SavesMore(old(unsavedOps), unsavedOps, old(allAppliedOps) + toRemove,
                old(allAppliedOps + unappliedOps) + BufferedOf(events[..n]), made);
      unappliedOps := unappliedOps - toRemove;
    }

    /** Applies buffered ops until none of them can be applied. A call that finds the loop
        already running leaves the work to it. */
    method ApplyPendingOpsFromStore(events: seq<Event>) returns (n: nat, made: set<Op>)
      requires Valid() && Acceptable(BufferedOf(events))
      modifies this
      ensures Valid() && n <= |events| && lock == old(lock) && AreMadeFrom(made, events[..n])
      ensures old(lock) ==> n == 0 && unchanged(this)
      ensures !old(lock) ==> forall o :: o in unappliedOps ==> !(o.prevs <= allAppliedOps)
      ensures !old(lock) ==> unappliedOps !! allAppliedOps
      ensures SavesMade(old(unsavedOps), unsavedOps, old(allAppliedOps + unappliedOps) + BufferedOf(events[..n]), made)
      ensures old(allAppliedOps) + made <= allAppliedOps
      ensures allAppliedOps + unappliedOps == old(allAppliedOps + unappliedOps) + BufferedOf(events[..n]) + made
    {
      hide HistoryExact, IndicesFor, Acceptable, InCausalOrder, SetOf, BufferedOf, AreMadeFrom, SavesMade;
      n, made := 0, {};
      NothingHappened(events, unsavedOps);
      if lock {
        return;
      }
      var go := true;
      while go
        invariant Valid() && n <= |events| && !lock && AreMadeFrom(made, events[..n])
        invariant SavesMade(old(unsavedOps), unsavedOps,
                            old(allAppliedOps + unappliedOps) + BufferedOf(events[..n]), made)
        invariant old(allAppliedOps) + made <= allAppliedOps
        invariant allAppliedOps + unappliedOps == old(allAppliedOps + unappliedOps) + BufferedOf(events[..n]) + made
        invariant go || forall o :: o in unappliedOps ==> !(o.prevs <= allAppliedOps)
        decreases |events| - n, unappliedOps, go
      {
        lock := true;
        RestIsAcceptable(events, n);
        ghost var saved, known := unsavedOps, allAppliedOps + unappliedOps;
        var more, others;
        go, more, others := Round(events[n..]);
        EventsSplit(events, n, more);
        SavesOn(old(unsavedOps), saved, unsavedOps, old(allAppliedOps + unappliedOps) + BufferedOf(events[..n]),
                known + BufferedOf(events[n..][..more]),
                old(allAppliedOps + unappliedOps) + BufferedOf(events[..n + more]), made, others);
        MadeSplit(events, n, more, made, others);
        n, made := n + more, made + others;
        lock := false;
      }
      WaitingAreNotApplied();
    }

    lemma WaitingAreNotApplied()
      requires HistoryExact() && forall o :: o in unappliedOps ==> !(o.prevs <= allAppliedOps)
      ensures unappliedOps !! allAppliedOps
    {
    }

    /** The store announces an op, which is loaded and buffered. */
    method ApplyOpFromStore(op: Op, events: seq<Event>) returns (n: nat, made: set<Op>)
      requires Valid() && Acceptable({op}) && Acceptable(BufferedOf(events))
      modifies this
      ensures Valid() && n <= |events| && AreMadeFrom(made, events[..n])
      ensures SavesMade(old(unsavedOps), unsavedOps, old(allAppliedOps + unappliedOps) + {op} + BufferedOf(events[..n]),
                        made)
      ensures old(allAppliedOps) + made <= allAppliedOps
      ensures allAppliedOps + unappliedOps == old(allAppliedOps + unappliedOps) + {op} + BufferedOf(events[..n]) + made
      ensures op !in old(allAppliedOps + unappliedOps) && !old(lock) ==>
                forall o :: o in unappliedOps ==> !(o.prevs <= allAppliedOps)
    {
      hide HistoryExact, IndicesFor, Acceptable, InCausalOrder, SetOf, BufferedOf, AreMadeFrom, SavesMade;
      n, made := 0, {};
      NothingHappened(events, unsavedOps);
      if op !in allAppliedOps && op !in unappliedOps {
        n, made := Await(events);
        AcceptableUnion(unappliedOps, {op});
        unappliedOps := unappliedOps + {op};
        RestIsAcceptable(events, n);
        ghost var saved, known := unsavedOps, allAppliedOps + unappliedOps;
        var more, others := ApplyPendingOpsFromStore(events[n..]);
        EventsSplit(events, n, more);
        SavesOn(old(unsavedOps), saved, unsavedOps, old(allAppliedOps), known + BufferedOf(events[n..][..more]),
                old(allAppliedOps + unappliedOps) + {op} + BufferedOf(events[..n + more]), made, others);
        MadeSplit(events, n, more, made, others);
        n, made := n + more, made + others;
      }
    }

    /** Whether an element is a member: some addition of it is current. */
    method HasByHash(e: Hash) returns (has: bool)
      requires Valid()
      ensures has <==> IsMember(e, allAppliedOps)
    {
      MembershipLaw(e, allAppliedOps);
      CurrentMeansMember(e, allAppliedOps);
      has := Get(currentAddOpsPerElmt, e) != {};
    }
  }

  lemma NothingHappened(events: seq<Event>, unsaved: seq<Op>)
    ensures BufferedOf(events[..0]) == {} && AreMadeFrom({}, events[..0])
    ensures forall known :: SavesMade(unsaved, unsaved, known, {})
  {
  }

  lemma NextIsAcceptable(events: seq<Event>, n: nat)
    requires n < |events| && Acceptable(BufferedOf(events))
    ensures events[n].Arrived? ==> Acceptable({events[n].op})
  {
    hide WellFormed;
    assert events[n].Arrived? ==> events[n].op in BufferedOf(events);
  }

  lemma RestIsAcceptable(events: seq<Event>, n: nat)
    requires n <= |events| && Acceptable(BufferedOf(events))
    ensures Acceptable(BufferedOf(events[n..]))
  {
    hide WellFormed;
    assert BufferedOf(events[n..]) <= BufferedOf(events);
  }

  lemma EventsSplit(events: seq<Event>, n: nat, more: nat)
    requires n + more <= |events|
    ensures BufferedOf(events[..n + more]) == BufferedOf(events[..n]) + BufferedOf(events[n..][..more])
  {
    assert events[..n + more] == events[..n] + events[n..][..more];
  }

  lemma MadeSplit(events: seq<Event>, n: nat, more: nat, made: set<Op>, others: set<Op>)
    requires n + more <= |events| && AreMadeFrom(made, events[..n]) && AreMadeFrom(others, events[n..][..more])
    ensures AreMadeFrom(made + others, events[..n + more])
  {
    assert events[..n + more] == events[..n] + events[n..][..more];
  }

  lemma SavesMore(u: seq<Op>, v: seq<Op>, known: set<Op>, all: set<Op>, made: set<Op>)
    requires SavesMade(u, v, known, made) && known <= all
    ensures SavesMade(u, v, all, made)
  {
  }

  lemma AcceptableUnion(s: set<Op>, t: set<Op>)
    requires Acceptable(s) && Acceptable(t)
    ensures Acceptable(s + t)
  {
  }

  /** What a round applies was buffered before; if nothing else happens, it takes that away. */
  lemma NothingIsLost(pending: set<Op>, applied: set<Op>, buffered: set<Op>, toRemove: set<Op>, made: set<Op>)
    requires toRemove <= pending
    ensures applied + toRemove + made + (pending + buffered - toRemove) == applied + pending + buffered + made
    ensures buffered == {} ==> pending + buffered == pending
    ensures buffered == {} && toRemove != {} ==> pending + buffered - toRemove < pending
    ensures toRemove == {} ==> pending + buffered - toRemove == pending + buffered
  {
    if toRemove != {} {
      var op :| op in toRemove;
      assert op in pending && op !in pending + buffered - toRemove;
    }
  }

  lemma AcceptableMember(s: set<Op>, op: Op)
    requires Acceptable(s) && op in s
    ensures WellFormed(op) && (op.kind.InvalidateAfter? ==> op.kind.invalidated.kind.Add?)
  {
  }

  lemma AcceptableSubset(s: set<Op>, t: set<Op>)
    requires Acceptable(s) && t <= s
    ensures Acceptable(t)
  {
  }

  /** Strong eventual consistency: replicas that have applied the same ops agree on the
      members and on every index, whatever order each of them applied the ops in. */
  lemma ReplicasConverge(a: CausalSet, b: CausalSet)
    requires a.Valid() && b.Valid() && SetOf(a.log) == SetOf(b.log)
    ensures a.terminalOps == b.terminalOps && a.activeCascInvsPerOp == b.activeCascInvsPerOp
    ensures a.validAddOpsPerElmt == b.validAddOpsPerElmt && a.validDeleteOpsPerAddOp == b.validDeleteOpsPerAddOp
    ensures a.currentAddOps == b.currentAddOps && a.currentAddOpsPerElmt == b.currentAddOpsPerElmt
    ensures a.allElements == b.allElements
    ensures forall o :: a.IsValidOp(o) <==> b.IsValidOp(o)
  {
    assert a.allAppliedOps == b.allAppliedOps;
    SameRelation(a.activeCascInvsPerOp, b.activeCascInvsPerOp);
    SameRelation(a.validAddOpsPerElmt, b.validAddOpsPerElmt);
    SameRelation(a.validDeleteOpsPerAddOp, b.validDeleteOpsPerAddOp);
    SameRelation(a.currentAddOpsPerElmt, b.currentAddOpsPerElmt);
  }
}
