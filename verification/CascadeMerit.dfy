/** Whether the undos that the store makes are deserved. An InvalidateAfterOp is to undo ops
    outside of what it follows only; the source's first note argues that a newly stored op is
    always outside. That is so exactly while no save overlooks an invalidation it will find. */
module CascadeMerits {
  import opened Hashing
  import opened CausalOps
  import opened StoreCascades

  /** An undo caused by an InvalidateAfterOp is of an op outside of what the latter follows. */
  ghost predicate OnlyUndoesOutside(op: Op) {
    IsCascade(op) ==> forall inv :: inv in op.causal && inv.kind.InvalidateAfter? ==> !Precedes(op.kind.target, inv)
  }

  /** The causal ops whose invalidations a save has still to look up. */
  function ToLookUp(f: Frame): set<Op> {
    match f
    case Depending(op) => op.causal
    case Causes(_, todo) => todo
    case Cascading(_, todo, _) => todo
    case _ => {}
  }

  /** A save will come across an invalidation that follows its op. */
  ghost predicate WillMeet(f: Frame, inv: Op) {
    && inv.kind.InvalidateAfter? && Precedes(f.op, inv)
    && (inv.kind.invalidated in ToLookUp(f) || (f.Cascading? && inv in f.invs))
  }

  /** The op that a save is about to store is no InvalidateAfterOp whose target is still to
      be looked up by a save of an op that it follows. */
  ghost predicate StoresCarefully(s: State, k: nat)
    requires k in s.frames
  {
    forall id :: id in s.frames ==> !WillMeet(s.frames[id], s.frames[k].op)
  }

  /** An op is stored with that care, and cascaded ops from outside are as they should be. */
  ghost predicate IsCareful(s: State, step: Step)
    requires CanStep(s, step)
  {
    match step
    case Start(_, op) => OnlyUndoesOutside(op)
    case Continue(k, act, _) => act.Store? ==> StoresCarefully(s, k)
  }

  ghost predicate MeetsNone(f: Frame, stored: set<Op>) {
    forall inv :: inv in stored ==> !WillMeet(f, inv)
  }

  ghost predicate LeavesAlone(s: State) {
    && (forall o :: o in s.stored ==> OnlyUndoesOutside(o))
    && (forall id :: id in s.frames ==> OnlyUndoesOutside(s.frames[id].op) && MeetsNone(s.frames[id], s.stored))
  }

  // ----- careful steps -----

  lemma {:induction false} PastIsStored(stored: set<Op>, p: Op, op: Op)
    requires PrevsApplied(stored) && op in stored && Precedes(p, op)
    ensures p in stored
    decreases op
  {
    if p !in op.prevs {
      var q :| q in op.prevs && Precedes(p, q);
      PastIsStored(stored, p, q);
    }
  }

  /** The argument behind the source's first note: an invalidation that is already stored
      does not follow an op that is not. */
  lemma MissingIsOutside(s: State, o: Op)
    requires Consistent(s) && o !in s.stored
    ensures forall inv :: inv in s.stored ==> !Precedes(o, inv)
  {
    forall inv | inv in s.stored
      ensures !Precedes(o, inv)
    {
      if Precedes(o, inv) {
        PastIsStored(s.stored, o, inv);
      }
    }
  }

  lemma NotBeforeSmaller(p: Op, op: Op)
    ensures op < p || op == p ==> !Precedes(p, op)
  {
    if Precedes(p, op) {
      PrecedesIsSmaller(p, op);
    }
  }

  lemma CreatedIsMerited(o: Op, inv: Op)
    requires WellFormed(o) && WellFormed(inv) && IsInvalidation(inv) && Create(o, inv).Some?
    requires inv.kind.InvalidateAfter? ==> !Precedes(o, inv)
    ensures OnlyUndoesOutside(Create(o, inv).value)
  {
  }

  lemma ActLeavesAlone(f: Frame, stored: set<Op>, act: Act, g: Frame)
    requires FrameSound(f, stored) && OnlyUndoesOutside(f.op) && MeetsNone(f, stored)
    requires f.op !in stored ==> forall inv :: inv in stored ==> !Precedes(f.op, inv)
    requires forall o :: o in stored ==> WellFormed(o)
    requires CanAct(f, stored, act) && IsNew(f, stored, act, g)
    ensures OnlyUndoesOutside(g.op)
    ensures MeetsNone(g, if act.Store? then stored + {f.op} else stored)
  {
    hide WellFormed, Precedes, Create, OnlyUndoesOutside;
    if act.Store? {
      NotBeforeSmaller(f.op, f.op);
    } else if act.Cascade? && Create(f.op, act.inv).Some? {
      CreatedIsMerited(f.op, act.inv);
    } else if act.Undo? && Create(act.conseq, f.op).Some? {
      CreatedIsMerited(act.conseq, f.op);
    }
  }

  /** A step keeps ops from being undone undeservedly exactly if it is careful. */
  lemma StepLeavesAlone(s: State, step: Step)
    requires Consistent(s) && LeavesAlone(s) && CanStep(s, step)
    requires step.Start? ==> OnlyUndoesOutside(step.op)
    ensures LeavesAlone(Next(s, step)) <==> IsCareful(s, step)
  {
    hide WellFormed, Precedes, Create, After, Called, OnlyUndoesOutside, WillMeet, Consistent;
    var t := Next(s, step);
    if IsCareful(s, step) {
      forall id | id in t.frames
        ensures OnlyUndoesOutside(t.frames[id].op) && MeetsNone(t.frames[id], t.stored)
      {
        FrameLeavesAlone(s, step, id);
      }
    } else {
      var id :| id in s.frames && WillMeet(s.frames[id], s.frames[step.id].op);
      CarelessMeets(s, step, id);
    }
  }

  lemma FrameLeavesAlone(s: State, step: Step, id: nat)
    requires Consistent(s) && LeavesAlone(s) && CanStep(s, step) && IsCareful(s, step) && id in Next(s, step).frames
    ensures OnlyUndoesOutside(Next(s, step).frames[id].op) && MeetsNone(Next(s, step).frames[id], Next(s, step).stored)
  {
    hide WellFormed, Precedes, Create, After, Called, OnlyUndoesOutside;
    var t := Next(s, step);
    StepEffect(s, step, id);
    if step.Continue? && IsNew(s.frames[step.id], s.stored, step.act, t.frames[id]) {
      if s.frames[step.id].op !in s.stored {
        MissingIsOutside(s, s.frames[step.id].op);
      }
      ActLeavesAlone(s.frames[step.id], s.stored, step.act, t.frames[id]);
    }
  }

  /** A save that an op stored carelessly will be met by goes on unchanged. */
  lemma CarelessMeets(s: State, step: Step, id: nat)
    requires CanStep(s, step) && step.Continue? && step.act.Store? && id in s.frames
    requires WillMeet(s.frames[id], s.frames[step.id].op)
    ensures id in Next(s, step).frames && Next(s, step).frames[id] == s.frames[id] && id != step.id
    ensures s.frames[step.id].op in Next(s, step).stored
  {
    hide Precedes;
    NotBeforeSmaller(s.frames[id].op, s.frames[step.id].op);
  }

  ghost predicate ReachesCarefully(s: State, steps: seq<Step>, t: State)
    decreases |steps|
  {
    if steps == [] then s == t
    else CanStep(s, steps[0]) && IsCareful(s, steps[0]) && ReachesCarefully(Next(s, steps[0]), steps[1..], t)
  }

  ghost predicate AllDeserved(s: State) {
    forall o :: o in s.stored ==> OnlyUndoesOutside(o)
  }

  /** Cascade soundness: in careful runs no op is undone by an InvalidateAfterOp that follows it. */
  lemma {:induction false} CascadesAreMerited(s: State, steps: seq<Step>, t: State)
    requires Consistent(s) && LeavesAlone(s) && ReachesCarefully(s, steps, t)
    ensures Consistent(t) && LeavesAlone(t) && AllDeserved(t)
    decreases |steps|
  {
    if steps != [] {
      StepKeepsConsistent(s, steps[0]);
      StepLeavesAlone(s, steps[0]);
      CascadesAreMerited(Next(s, steps[0]), steps[1..], t);
    }
  }

  // ----- careless steps -----

  lemma {:induction false} PrecedesOnOneObject(stored: set<Op>, p: Op, op: Op)
    requires PrevsApplied(stored) && AllWellFormed(stored) && op in stored && Precedes(p, op)
    ensures p.targetObject == op.targetObject
    decreases op
  {
    if p !in op.prevs {
      var q :| q in op.prevs && Precedes(p, q);
      PrecedesOnOneObject(stored, p, q);
    }
  }

  /** Continues a careful run with an action of one save. */
  lemma OneMoreCarefulStep(s: State, steps: seq<Step>, t: State, id: nat, act: Act)
    returns (longer: seq<Step>, u: State, child: nat)
    requires ReachesCarefully(s, steps, t) && Consistent(t) && id in t.frames && CanAct(t.frames[id], t.stored, act)
    requires act.Store? ==> StoresCarefully(t, id)
    ensures ReachesCarefully(s, longer, u) && Consistent(u)
    ensures u.stored == if act.Store? then t.stored + {t.frames[id].op} else t.stored
    ensures After(t.frames[id], t.stored, act).Some? ==>
              id in u.frames && u.frames[id] == After(t.frames[id], t.stored, act).value
    ensures Called(t.frames[id], t.stored, act).Some? ==>
              child in u.frames && u.frames[child] == Entered(Called(t.frames[id], t.stored, act).value)
    ensures forall k :: k in t.frames && k != id ==> k in u.frames && u.frames[k] == t.frames[k]
  {
    hide CanAct, After, Called, StoresCarefully, Consistent;
    child := Unused(t.frames.Keys);
    var step := Continue(id, act, child);
    longer, u := steps + [step], Next(t, step);
    StepKeepsConsistent(t, step);
    CarefulRunContinues(s, steps, t, step);
  }

  lemma {:induction false} CarefulRunContinues(s: State, steps: seq<Step>, t: State, step: Step)
    requires ReachesCarefully(s, steps, t) && CanStep(t, step) && IsCareful(t, step)
    ensures ReachesCarefully(s, steps + [step], Next(t, step))
    decreases |steps|
  {
    hide CanStep, Next, IsCareful;
    var longer := steps + [step];
    if steps == [] {
      assert longer[1..] == [];
      assert ReachesCarefully(Next(s, step), longer[1..], Next(t, step));
    } else {
      CarefulRunContinues(Next(s, steps[0]), steps[1..], t, step);
      assert longer[1..] == steps[1..] + [step];
    }
  }

  lemma FrameIsSound(s: State, id: nat)
    requires Consistent(s) && id in s.frames
    ensures FrameSound(s.frames[id], s.stored) && PrevsApplied(s.stored) && AllWellFormed(s.stored)
    ensures forall o :: o in s.stored ==> Deps(o) + o.prevs <= s.stored
  {
  }

  /** A save that will meet a stored invalidation that follows its op goes on to undo its op. */
  lemma MetInvalidationUndoes(s: State, steps: seq<Step>, t: State, id: nat, inv: Op)
    returns (longer: seq<Step>, u: State)
    requires ReachesCarefully(s, steps, t) && Consistent(t) && id in t.frames && inv in t.stored
    requires WillMeet(t.frames[id], inv)
    requires t.frames[id].Depending? ==> StoresCarefully(t, id)
    ensures ReachesCarefully(s, longer, u) && !AllDeserved(u)
  {
    hide *;
    if t.frames[id].Depending? {
      longer, u := MetWhenDepending(s, steps, t, id, inv);
    } else if t.frames[id].Causes? {
      longer, u := MetAmongCauses(s, steps, t, id, inv);
    } else {
      MeetsInFlight(t.frames[id], inv);
      if inv in t.frames[id].invs {
        longer, u := MetWhenCascading(s, steps, t, id, inv);
      } else {
        MeetsAmongTodo(t.frames[id], inv);
        longer, u := CascadeAll(s, steps, t, id);
        longer, u := MetAmongCauses(s, longer, u, id, inv);
      }
    }
  }

  lemma MeetsInFlight(f: Frame, inv: Op)
    requires WillMeet(f, inv)
    ensures f.Depending? || f.Causes? || f.Cascading?
    ensures inv.kind.InvalidateAfter? && Precedes(f.op, inv)
  {
  }

  lemma MeetsAmongTodo(f: Frame, inv: Op)
    requires WillMeet(f, inv) && f.Cascading? && inv !in f.invs
    ensures WillMeet(Causes(f.op, f.todo), inv)
  {
  }

  lemma MetWhenDepending(s: State, steps: seq<Step>, t: State, id: nat, inv: Op) returns (longer: seq<Step>, u: State)
    requires ReachesCarefully(s, steps, t) && Consistent(t) && id in t.frames && inv in t.stored
    requires WillMeet(t.frames[id], inv) && t.frames[id].Depending? && StoresCarefully(t, id)
    ensures ReachesCarefully(s, longer, u) && !AllDeserved(u)
  {
    hide WellFormed, Precedes, Create, Consistent, Deps, OnlyUndoesOutside, FrameSound, StoresCarefully, AllDeserved;
    hide ReachesCarefully, PrevsApplied, AllWellFormed;
    var o := t.frames[id].op;
    FrameIsSound(t, id);
    PastIsStored(t.stored, o, inv);
    var child;
    longer, u, child := OneMoreCarefulStep(s, steps, t, id, Store);
    longer, u := MetAmongCauses(s, longer, u, id, inv);
  }

  lemma MetAmongCauses(s: State, steps: seq<Step>, t: State, id: nat, inv: Op) returns (longer: seq<Step>, u: State)
    requires ReachesCarefully(s, steps, t) && Consistent(t) && id in t.frames && inv in t.stored
    requires WillMeet(t.frames[id], inv) && t.frames[id].Causes?
    ensures ReachesCarefully(s, longer, u) && !AllDeserved(u)
  {
    hide WellFormed, Precedes, Create, Consistent, OnlyUndoesOutside, FrameSound, StoresCarefully, AllDeserved;
    hide ReachesCarefully, PrevsApplied, AllWellFormed;
    FrameIsSound(t, id);
    PrecedesOnOneObject(t.stored, t.frames[id].op, inv);
    var child;
    longer, u, child := OneMoreCarefulStep(s, steps, t, id, LookUp(inv.kind.invalidated));
    longer, u := MetWhenCascading(s, longer, u, id, inv);
  }

  lemma MetWhenCascading(s: State, steps: seq<Step>, t: State, id: nat, inv: Op) returns (longer: seq<Step>, u: State)
    requires ReachesCarefully(s, steps, t) && Consistent(t) && id in t.frames && inv in t.stored
    requires t.frames[id].Cascading? && inv in t.frames[id].invs
    requires inv.kind.InvalidateAfter? && Precedes(t.frames[id].op, inv)
    ensures ReachesCarefully(s, longer, u) && !AllDeserved(u)
  {
    hide WellFormed, Precedes, Create, Consistent, Deps, OnlyUndoesOutside, StoresCarefully, AllDeserved;
    hide ReachesCarefully, PrevsApplied, AllWellFormed;
    FrameIsSound(t, id);
    CascadeIsCreated(t, id, inv);
    var casc := Create(t.frames[id].op, inv).value;
    CreatedUndoesInside(t.frames[id].op, inv);
    var child, other;
    longer, u, child := OneMoreCarefulStep(s, steps, t, id, Act.Cascade(inv));
    if casc !in u.stored {
      longer, u, other := OneMoreCarefulStep(s, longer, u, child, Check);
      assert StoresCarefully(u, child) by { CascadesAreStoredCarefully(u, child); }
      longer, u, other := OneMoreCarefulStep(s, longer, u, child, Store);
    }
    assert !AllDeserved(u) by { OneIsUndeserved(u, casc); }
  }

  /** An invalidation found for an op is one that a cascaded op can be created for. */
  lemma CascadeIsCreated(t: State, id: nat, inv: Op)
    requires Consistent(t) && id in t.frames && t.frames[id].Cascading? && inv in t.frames[id].invs
    ensures IsInvalidation(inv) && Create(t.frames[id].op, inv).Some?
    ensures Deps(Create(t.frames[id].op, inv).value) + Create(t.frames[id].op, inv).value.prevs <= t.stored
  {
    hide WellFormed, Precedes, Create, Deps;
    CreateSucceeds(t.frames[id].op, inv);
  }

  lemma CreatedUndoesInside(o: Op, inv: Op)
    requires inv.kind.InvalidateAfter? && Create(o, inv).Some? && Precedes(o, inv)
    ensures IsCascade(Create(o, inv).value) && !OnlyUndoesOutside(Create(o, inv).value)
  {
  }

  lemma CascadesAreStoredCarefully(s: State, k: nat)
    requires k in s.frames && IsCascade(s.frames[k].op)
    ensures StoresCarefully(s, k)
  {
  }

  lemma OneIsUndeserved(s: State, o: Op)
    requires o in s.stored && !OnlyUndoesOutside(o)
    ensures !AllDeserved(s)
  {
    hide OnlyUndoesOutside;
  }

  /** A save calls for the undos and redos of all invalidations that it has found. */
  lemma {:induction false} CascadeAll(s: State, steps: seq<Step>, t: State, id: nat)
    returns (longer: seq<Step>, u: State)
    requires ReachesCarefully(s, steps, t) && Consistent(t) && id in t.frames && t.frames[id].Cascading?
    ensures ReachesCarefully(s, longer, u) && Consistent(u) && u.stored == t.stored
    ensures id in u.frames && u.frames[id] == Causes(t.frames[id].op, t.frames[id].todo)
    decreases t.frames[id].invs
  {
    hide WellFormed, Precedes, Create, Consistent, Deps, FrameSound, StoresCarefully, ReachesCarefully;
    var child;
    if t.frames[id].invs == {} {
      longer, u, child := OneMoreCarefulStep(s, steps, t, id, NextCause);
    } else {
      var i :| i in t.frames[id].invs;
      CascadeIsCreated(t, id, i);
      longer, u, child := OneMoreCarefulStep(s, steps, t, id, Act.Cascade(i));
      longer, u := CascadeAll(s, longer, u, id);
    }
  }

  /** Every run on from the state that is as careful as can be keeps all undos deserved. */
  ghost predicate StaysDeserved(s: State) {
    forall steps, t :: ReachesCarefully(s, steps, t) ==> AllDeserved(t)
  }

  /** The condition is exact: a step that meets it leaves only runs in which all undos are
      deserved, as long as these meet it too; after a step that does not, such a run goes on
      to undo an op because of an invalidation that follows it. */
  lemma CarefulExactlyWhen(s: State, step: Step)
    requires Consistent(s) && LeavesAlone(s) && CanStep(s, step)
    requires step.Start? ==> OnlyUndoesOutside(step.op)
    ensures IsCareful(s, step) <==> StaysDeserved(Next(s, step))
  {
    hide WellFormed, Precedes, OnlyUndoesOutside, Consistent, LeavesAlone, ReachesCarefully, AllDeserved, WillMeet;
    hide CanAct, After, Called;
    var n := Next(s, step);
    StepKeepsConsistent(s, step);
    if IsCareful(s, step) {
      StepLeavesAlone(s, step);
      forall steps, t | ReachesCarefully(n, steps, t)
        ensures AllDeserved(t)
      {
        CascadesAreMerited(n, steps, t);
      }
    } else {
      var id :| id in s.frames && WillMeet(s.frames[id], s.frames[step.id].op);
      CarelessStoreUndoes(s, step, id);
    }
  }

  lemma CarelessStoreUndoes(s: State, step: Step, id: nat)
    requires Consistent(s) && LeavesAlone(s) && CanStep(s, step) && step.Continue? && step.act.Store?
    requires id in s.frames && WillMeet(s.frames[id], s.frames[step.id].op)
    ensures !StaysDeserved(Next(s, step))
  {
    hide WellFormed, Precedes, OnlyUndoesOutside, Consistent, LeavesAlone, ReachesCarefully, AllDeserved, WillMeet;
    hide CanAct, After, Called;
    var n := Next(s, step);
    var inv := s.frames[step.id].op;
    StepKeepsConsistent(s, step);
    CarelessMeets(s, step, id);
    assert n.frames[id].Depending? ==> StoresCarefully(n, id) by { StoredAgainCarefully(s, step, id); }
    assert ReachesCarefully(n, [], n) by { NoCarefulSteps(n); }
    var steps, t := MetInvalidationUndoes(n, [], n, id, inv);
  }

  lemma NoCarefulSteps(s: State)
    ensures ReachesCarefully(s, [], s)
  {
  }

  /** An op that an op just stored follows was stored before, when nothing could meet it. */
  lemma StoredAgainCarefully(s: State, step: Step, id: nat)
    requires Consistent(s) && LeavesAlone(s) && CanStep(s, step) && step.Continue? && step.act.Store?
    requires id in s.frames && WillMeet(s.frames[id], s.frames[step.id].op)
    requires id in Next(s, step).frames && Next(s, step).frames[id] == s.frames[id]
    ensures StoresCarefully(Next(s, step), id)
  {
    hide WellFormed, Precedes, OnlyUndoesOutside, Consistent, Deps;
    var o, inv := s.frames[id].op, s.frames[step.id].op;
    FrameIsSound(s, id);
    PredecessorIsStored(s.stored, o, inv);
    PrecedesIsSmaller(o, inv);
    NotBeforeSmaller(inv, o);
    forall k | k in Next(s, step).frames
      ensures !WillMeet(Next(s, step).frames[k], o)
    {
      StepEffect(s, step, k);
    }
  }

  lemma PredecessorIsStored(stored: set<Op>, p: Op, op: Op)
    requires PrevsApplied(stored) && op.prevs <= stored && Precedes(p, op)
    ensures p in stored
  {
    if p !in op.prevs {
      var q :| q in op.prevs && Precedes(p, q);
      PastIsStored(stored, p, q);
    }
  }

  // ----- one save at a time -----

  ghost predicate IsInnermost(s: State, id: nat) {
    id in s.frames && forall k :: k in s.frames ==> k <= id
  }

  /** A program that awaits each save: only the innermost one goes on, and while it waits for
      its dependencies these are what is saved next. */
  ghost predicate IsSequential(s: State, step: Step) {
    match step
    case Start(id, op) =>
      && OnlyUndoesOutside(op) && (forall k :: k in s.frames ==> k < id)
      && (s.frames != map[] ==> exists k :: IsInnermost(s, k) && s.frames[k].Depending? && op in Deps(s.frames[k].op))
    case Continue(id, _, child) => IsInnermost(s, id) && child > id
  }

  /** What an inner save saves is stored, or about to be stored as an undo or redo, or the
      outer one depends on it. */
  ghost predicate IsWithin(stored: set<Op>, outer: Frame, op: Op) {
    || op in stored
    || (IsCascade(op) && Deps(op) <= stored)
    || (outer.Depending? && op < outer.op)
  }

  ghost predicate IsNested(s: State) {
    forall i, j :: i in s.frames && j in s.frames && i < j ==> IsWithin(s.stored, s.frames[i], s.frames[j].op)
  }

  lemma SequentialIsCareful(s: State, step: Step)
    requires Consistent(s) && LeavesAlone(s) && IsNested(s) && CanStep(s, step) && IsSequential(s, step)
    ensures IsCareful(s, step)
  {
    hide WellFormed, Precedes, Consistent, Deps;
    if step.Continue? && step.act.Store? {
      var inv := s.frames[step.id].op;
      forall id | id in s.frames
        ensures !WillMeet(s.frames[id], inv)
      {
        NotBeforeSmaller(s.frames[id].op, inv);
        assert id < step.id ==> IsWithin(s.stored, s.frames[id], inv);
      }
    }
  }

  /** What a save depends on is within whatever that save is within. */
  lemma DependencyIsWithin(s: State, outer: Frame, f: Frame, op: Op)
    requires Consistent(s) && IsWithin(s.stored, outer, f.op) && op in Deps(f.op)
    ensures IsWithin(s.stored, outer, op) && op < f.op
  {
    hide WellFormed;
  }

  lemma StepStaysNested(s: State, step: Step)
    requires Consistent(s) && IsNested(s) && CanStep(s, step) && IsSequential(s, step)
    ensures IsNested(Next(s, step))
  {
    hide WellFormed, Precedes, IsWithin, Consistent, OnlyUndoesOutside;
    var t := Next(s, step);
    StepEffect(s, step, 0);
    forall i, j | i in t.frames && j in t.frames && i < j
      ensures IsWithin(t.stored, t.frames[i], t.frames[j].op)
    {
      if step.Start? {
        StartIsWithin(s, step, i, j);
      } else {
        InnerIsWithin(s, step, i, j);
      }
    }
  }

  lemma StartIsWithin(s: State, step: Step, i: nat, j: nat)
    requires Consistent(s) && IsNested(s) && CanStep(s, step) && IsSequential(s, step) && step.Start?
    requires i in Next(s, step).frames && j in Next(s, step).frames && i < j
    ensures IsWithin(Next(s, step).stored, Next(s, step).frames[i], Next(s, step).frames[j].op)
  {
    hide WellFormed, Precedes, Consistent, OnlyUndoesOutside, Deps;
    if j == step.id {
      var k :| IsInnermost(s, k) && s.frames[k].Depending? && step.op in Deps(s.frames[k].op);
      if i == k {
        OwnDependencyIsWithin(s.frames[k], s.stored, step.op);
      } else {
        DependencyIsWithin(s, s.frames[i], s.frames[k], step.op);
      }
    }
  }

  lemma OwnDependencyIsWithin(f: Frame, stored: set<Op>, op: Op)
    requires f.Depending? && op in Deps(f.op)
    ensures IsWithin(stored, f, op)
  {
  }

  lemma InnerIsWithin(s: State, step: Step, i: nat, j: nat)
    requires Consistent(s) && IsNested(s) && CanStep(s, step) && IsSequential(s, step) && step.Continue?
    requires i in Next(s, step).frames && j in Next(s, step).frames && i < j
    ensures IsWithin(Next(s, step).stored, Next(s, step).frames[i], Next(s, step).frames[j].op)
  {
    hide WellFormed, Precedes, OnlyUndoesOutside, Consistent, Create;
    var t := Next(s, step);
    var f := s.frames[step.id];
    if j == step.child {
      assert Called(f, s.stored, step.act) == Some(t.frames[j].op);
      CalledIsWithin(s, step.id, step.act);
    } else {
      assert i < step.id && t.frames[i] == s.frames[i] && t.frames[j].op == s.frames[j].op;
    }
  }

  lemma CalledIsWithin(s: State, id: nat, act: Act)
    requires Consistent(s) && id in s.frames && CanAct(s.frames[id], s.stored, act)
    requires Called(s.frames[id], s.stored, act).Some?
    ensures var op := Called(s.frames[id], s.stored, act).value; IsCascade(op) && Deps(op) <= s.stored
  {
    hide WellFormed, Precedes, Create, Consistent;
    FrameOf(s, id);
    var f := s.frames[id];
    if act.Cascade? {
      CreateSucceeds(f.op, act.inv);
      CreatedIsCascade(f.op, act.inv);
    } else {
      CreateSucceeds(act.conseq, f.op);
      CreatedIsCascade(act.conseq, f.op);
    }
  }

  lemma CreatedIsCascade(o: Op, inv: Op)
    requires IsInvalidation(inv) && Create(o, inv).Some?
    ensures IsCascade(Create(o, inv).value)
  {
  }

  ghost predicate ReachesSequentially(s: State, steps: seq<Step>, t: State)
    decreases |steps|
  {
    if steps == [] then s == t
    else CanStep(s, steps[0]) && IsSequential(s, steps[0]) && ReachesSequentially(Next(s, steps[0]), steps[1..], t)
  }

  /** What the note says holds for a program that awaits each save. */
  lemma {:induction false} SequentialCascadesAreMerited(s: State, steps: seq<Step>, t: State)
    requires Consistent(s) && LeavesAlone(s) && IsNested(s) && ReachesSequentially(s, steps, t)
    ensures ReachesCarefully(s, steps, t) && AllDeserved(t)
    decreases |steps|
  {
    if steps != [] {
      StepKeepsConsistent(s, steps[0]);
      SequentialIsCareful(s, steps[0]);
      StepLeavesAlone(s, steps[0]);
      StepStaysNested(s, steps[0]);
      SequentialCascadesAreMerited(Next(s, steps[0]), steps[1..], t);
    }
  }
}
