/** What whole runs of the store come to: two runs that are given the same ops end up with the
    same ops, and two short runs from the empty store that show what can go wrong. */
module StoreRuns {
  import opened Hashing
  import opened CausalOps
  import opened StoreCascades
  import opened CascadeMerits
  import opened StoreLosses

  ghost predicate IsCalledFor(x: Op, stored: set<Op>) {
    exists o, inv :: o in stored && inv in stored && CallsFor(inv, o) && Create(o, inv) == Some(x)
  }

  /** What is stored or being saved was given, or is an undo or redo that stored ops call for. */
  ghost predicate Accounted(s: State, given: set<Op>) {
    && (forall x :: x in s.stored ==> x in given || IsCalledFor(x, s.stored))
    && (forall id :: id in s.frames ==> s.frames[id].op in given || IsCalledFor(s.frames[id].op, s.stored))
  }

  lemma CalledForStays(x: Op, before: set<Op>, after: set<Op>)
    requires IsCalledFor(x, before) && before <= after
    ensures IsCalledFor(x, after)
  {
    hide CallsFor, Create;
  }

  /** A save calls only for undos and redos that are called for. */
  lemma CalledIsCalledFor(s: State, id: nat, act: Act)
    requires Consistent(s) && LeavesAlone(s) && id in s.frames && CanAct(s.frames[id], s.stored, act)
    requires Called(s.frames[id], s.stored, act).Some?
    ensures IsCalledFor(Called(s.frames[id], s.stored, act).value, s.stored)
  {
    hide WellFormed, Precedes, Create;
    var f := s.frames[id];
    FrameIsSound(s, id);
    var o, inv := if act.Cascade? then f.op else act.conseq, if act.Cascade? then act.inv else f.op;
    assert !WillMeet(f, inv);
    CreateSucceeds(o, inv);
    assert CallsFor(inv, o);
  }

  lemma StepKeepsAccounted(s: State, step: Step, given: set<Op>)
    requires Consistent(s) && LeavesAlone(s) && CanStep(s, step) && Accounted(s, given)
    requires step.Start? ==> step.op in given
    ensures Accounted(Next(s, step), given)
  {
    hide WellFormed, Precedes, Create, Consistent, LeavesAlone, IsCalledFor, CanAct, After, Called;
    var t := Next(s, step);
    forall x | x in s.stored && x !in given
      ensures IsCalledFor(x, t.stored)
    {
      CalledForStays(x, s.stored, t.stored);
    }
    forall id | id in t.frames && t.frames[id].op !in given
      ensures IsCalledFor(t.frames[id].op, t.stored)
    {
      FrameStaysAccounted(s, step, given, id);
    }
    if step.Continue? && step.act.Store? && s.frames[step.id].op !in given {
      CalledForStays(s.frames[step.id].op, s.stored, t.stored);
    }
  }

  lemma FrameStaysAccounted(s: State, step: Step, given: set<Op>, id: nat)
    requires Consistent(s) && LeavesAlone(s) && CanStep(s, step) && Accounted(s, given)
    requires step.Start? ==> step.op in given
    requires id in Next(s, step).frames && Next(s, step).frames[id].op !in given
    ensures IsCalledFor(Next(s, step).frames[id].op, Next(s, step).stored)
  {
    hide WellFormed, Precedes, Create, Consistent, LeavesAlone, IsCalledFor, CanAct, Called;
    var t := Next(s, step);
    StepEffect(s, step, id);
    var op := t.frames[id].op;
    if step.Continue? && Called(s.frames[step.id], s.stored, step.act) == Some(op) {
      CalledIsCalledFor(s, step.id, step.act);
    }
    CalledForStays(op, s.stored, t.stored);
  }

  lemma {:induction false} RunKeepsAccounted(s: State, steps: seq<Step>, t: State, given: set<Op>)
    requires Consistent(s) && LeavesAlone(s) && ReachesCarefully(s, steps, t)
    requires Accounted(s, given) && GivenOf(steps) <= given
    ensures Accounted(t, given)
    decreases |steps|
  {
    hide Consistent, LeavesAlone, Accounted, CanStep, Next;
    if steps != [] {
      StepKeepsConsistent(s, steps[0]);
      StepLeavesAlone(s, steps[0]);
      assert steps[0].Start? ==> steps[0].op in GivenOf(steps);
      assert GivenOf(steps[1..]) <= GivenOf(steps);
      StepKeepsAccounted(s, steps[0], given);
      RunKeepsAccounted(Next(s, steps[0]), steps[1..], t, given);
    }
  }

  lemma {:induction false} CarefulRunIsRun(s: State, steps: seq<Step>, t: State)
    requires ReachesCarefully(s, steps, t)
    ensures Reaches(s, steps, t)
    decreases |steps|
  {
    hide CanStep, Next, IsCareful;
    if steps != [] {
      CarefulRunIsRun(Next(s, steps[0]), steps[1..], t);
    }
  }

  lemma CalledForParts(x: Op, stored: set<Op>) returns (o: Op, inv: Op)
    requires IsCalledFor(x, stored)
    ensures o in stored && inv in stored && CallsFor(inv, o) && Create(o, inv) == Some(x)
    ensures o < x && inv < x
  {
    hide Create, Precedes;
    o, inv :| o in stored && inv in stored && CallsFor(inv, o) && Create(o, inv) == Some(x);
    assert x.kind.target == o && inv in x.causal;
  }

  /** Whatever one run has stored, another one that was given the same stores too. */
  lemma {:induction false} StoredElsewhere(t: State, given: set<Op>, u: State, x: Op)
    requires Accounted(t, given) && given <= u.stored && x in t.stored
    requires forall o, inv :: o in u.stored && inv in u.stored && CallsFor(inv, o) ==>
               IsCascadeOf(Create(o, inv), u.stored)
    ensures x in u.stored
    decreases x
  {
    hide CallsFor, Create, IsCalledFor;
    if x !in given {
      var o, inv := CalledForParts(x, t.stored);
      StoredElsewhere(t, given, u, o);
      StoredElsewhere(t, given, u, inv);
    }
  }

  /** Store confluence: two careful runs from the empty store, over any two interleavings, that
      have finished all saves and hold what the other one was given hold the same ops, if these
      are not at risk of losing an undo. */
  lemma StoresConverge(steps: seq<Step>, t: State, others: seq<Step>, u: State)
    requires ReachesCarefully(Initial(), steps, t) && t.frames == map[] && !IsAtRisk(GivenOf(steps))
    requires ReachesCarefully(Initial(), others, u) && u.frames == map[] && !IsAtRisk(GivenOf(others))
    requires GivenOf(steps) <= u.stored && GivenOf(others) <= t.stored
    ensures t.stored == u.stored
  {
    StoredIsIncluded(steps, t, others, u);
    StoredIsIncluded(others, u, steps, t);
  }

  lemma StoredIsIncluded(steps: seq<Step>, t: State, others: seq<Step>, u: State)
    requires ReachesCarefully(Initial(), steps, t) && GivenOf(steps) <= u.stored
    requires ReachesCarefully(Initial(), others, u) && u.frames == map[] && !IsAtRisk(GivenOf(others))
    ensures t.stored <= u.stored
  {
    hide ReachesCarefully, Reaches, CallsFor, IsAtRisk, IsCascadeOf, Create;
    RunKeepsAccounted(Initial(), steps, t, GivenOf(steps));
    CarefulRunIsRun(Initial(), others, u);
    NothingIsLost(GivenOf(others), others, u);
    forall x | x in t.stored
      ensures x in u.stored
    {
      StoredElsewhere(t, GivenOf(steps), u, x);
    }
  }

  // ----- two runs from the empty store -----

  function Plain(nonce: nat, name: Hash, causal: set<Op>): Op {
    Op(nonce, name, Other, {}, causal)
  }

  function Invalidating(nonce: nat, op: Op, prevs: set<Op>): Op {
    Op(nonce, op.targetObject, InvalidateAfter(op), prevs, {})
  }

  /** Starts a save and finds that the op is missing. */
  lemma Begin(s: State, steps: seq<Step>, t: State, op: Op) returns (longer: seq<Step>, u: State, id: nat)
    requires ReachesCarefully(s, steps, t) && Consistent(t)
    requires WellFormed(op) && OnlyUndoesOutside(op) && op !in t.stored
    ensures ReachesCarefully(s, longer, u) && Consistent(u) && u.stored == t.stored
    ensures id in u.frames && u.frames[id] == Depending(op)
    ensures forall k :: k in t.frames ==> k in u.frames && u.frames[k] == t.frames[k]
  {
    hide WellFormed, OnlyUndoesOutside, Consistent, ReachesCarefully, StoresCarefully;
    id := Unused(t.frames.Keys);
    var step := Start(id, op);
    CarefulRunContinues(s, steps, t, step);
    StepKeepsConsistent(t, step);
    var child;
    longer, u, child := OneMoreCarefulStep(s, steps + [step], Next(t, step), id, Check);
  }

  /** Saves a plain op as far as looking up the invalidations of its causal ops. */
  lemma BeginAndStore(s: State, steps: seq<Step>, t: State, op: Op) returns (longer: seq<Step>, u: State, id: nat)
    requires ReachesCarefully(s, steps, t) && Consistent(t)
    requires op.kind.Other? && op.prevs == {} && op.causal <= t.stored && op !in t.stored
    ensures ReachesCarefully(s, longer, u) && Consistent(u) && u.stored == t.stored + {op}
    ensures id in u.frames && u.frames[id] == Causes(op, op.causal)
  {
    hide Consistent, ReachesCarefully, Precedes;
    longer, u, id := Begin(s, steps, t, op);
    var child;
    longer, u, child := OneMoreCarefulStep(s, longer, u, id, Store);
  }

  /** The first note fails: a careless store is reached from the empty store, by a run that is
      careful up to there, whatever the object; and from there an undeserved undo is. */
  lemma CarelessStoreIsReached(name: Hash) returns (steps: seq<Step>, t: State, step: Step)
    ensures ReachesCarefully(Initial(), steps, t) && CanStep(t, step) && !IsCareful(t, step)
    ensures !StaysDeserved(Next(t, step))
  {
    hide Consistent, ReachesCarefully, LeavesAlone, StaysDeserved, Precedes, OnlyUndoesOutside, StoresCarefully;
    var c := Plain(0, name, {});
    var o := Plain(1, name, {c});
    var inv := Invalidating(2, c, {o});
    EmptyStoreIsFine();
    var first, second, third;
    steps, t, first := BeginAndStore(Initial(), [], Initial(), c);
    steps, t, second := BeginAndStore(Initial(), steps, t, o);
    assert OnlyUndoesOutside(inv) by { NoCascadeIsDeserved(inv); }
    steps, t, third := Begin(Initial(), steps, t, inv);
    var child := Unused(t.frames.Keys);
    step := Continue(third, Store, child);
    assert WillMeet(t.frames[second], inv) by { PredecessorPrecedes(o, inv); }
    assert !IsCareful(t, step) by { MetIsCareless(t, third, second); }
    CascadesAreMerited(Initial(), steps, t);
    CarefulExactlyWhen(t, step);
  }

  lemma EmptyStoreIsFine()
    ensures Consistent(Initial()) && LeavesAlone(Initial()) && Covered(Initial()) && IsNested(Initial())
    ensures ReachesCarefully(Initial(), [], Initial()) && Reaches(Initial(), [], Initial())
  {
  }

  lemma NoCascadeIsDeserved(op: Op)
    requires !IsCascade(op)
    ensures OnlyUndoesOutside(op)
  {
  }

  lemma PredecessorPrecedes(p: Op, op: Op)
    requires p in op.prevs
    ensures Precedes(p, op)
  {
  }

  lemma MetIsCareless(s: State, k: nat, id: nat)
    requires {k, id} <= s.frames.Keys && WillMeet(s.frames[id], s.frames[k].op)
    ensures !StoresCarefully(s, k)
  {
    hide WillMeet;
  }

  /** Continues a run in which there is one save, with an action that calls no other. */
  lemma SoloStep(s: State, steps: seq<Step>, t: State, f: Frame, act: Act) returns (longer: seq<Step>, u: State)
    requires Reaches(s, steps, t) && t.frames == map[0 := f] && CanAct(f, t.stored, act)
    requires Called(f, t.stored, act).None?
    ensures Reaches(s, longer, u) && u.stored == if act.Store? then t.stored + {f.op} else t.stored
    ensures u.frames == Put(map[], 0, After(f, t.stored, act))
  {
    hide CanAct, After, Called, Reaches;
    longer, u := OneMoreStep(s, steps, t, 0, act);
    assert t.frames - {0} == map[];
  }

  /** Saves an op on its own up to where it is stored. */
  lemma StoreSolo(s: State, steps: seq<Step>, t: State, op: Op) returns (longer: seq<Step>, u: State)
    requires Reaches(s, steps, t) && t.frames == map[] && WellFormed(op)
    requires op !in t.stored && Deps(op) + op.prevs <= t.stored
    ensures Reaches(s, longer, u) && u == State(t.stored + {op}, map[0 := Causes(op, op.causal)])
  {
    hide WellFormed, Reaches, Deps;
    RunContinues(s, steps, t, Start(0, op));
    longer, u := SoloStep(s, steps + [Start(0, op)], Next(t, Start(0, op)), Entered(op), Check);
    longer, u := SoloStep(s, longer, u, Depending(op), Store);
  }

  lemma {:induction false} LookUpSolo(s: State, steps: seq<Step>, t: State, op: Op, todo: set<Op>)
    returns (longer: seq<Step>, u: State)
    requires Reaches(s, steps, t) && t.frames == map[0 := Causes(op, todo)]
    requires forall i :: i in t.stored ==> !IsInvalidation(i)
    ensures Reaches(s, longer, u) && u == State(t.stored, map[0 := Causes(op, {})])
    decreases todo
  {
    hide Reaches;
    if todo == {} {
      longer, u := steps, t;
    } else {
      var cause :| cause in todo;
      assert InvalidationsOf(t.stored, cause, op) == {};
      longer, u := SoloStep(s, steps, t, Causes(op, todo), LookUp(cause));
      longer, u := SoloStep(s, longer, u, Cascading(op, todo - {cause}, {}), NextCause);
      longer, u := LookUpSolo(s, longer, u, op, todo - {cause});
    }
  }

  /** Saves a plain op while there is nothing to cascade. */
  lemma SaveQuietly(s: State, steps: seq<Step>, t: State, op: Op) returns (longer: seq<Step>, u: State)
    requires Reaches(s, steps, t) && t.frames == map[] && forall i :: i in t.stored ==> !IsInvalidation(i)
    requires op.kind.Other? && op.prevs == {} && op !in t.stored && op.causal <= t.stored
    ensures Reaches(s, longer, u) && u == State(t.stored + {op}, map[])
  {
    hide Reaches;
    longer, u := StoreSolo(s, steps, t, op);
    longer, u := LookUpSolo(s, longer, u, op, op.causal);
    longer, u := SoloStep(s, longer, u, Causes(op, {}), FinishCauses);
  }

  /** Cascades are lost in a run from the empty store, whatever the two objects. */
  lemma LostCascadeIsReached(name: Hash, other: Hash) returns (steps: seq<Step>, t: State, o: Op, inv: Op)
    requires name != other
    ensures Reaches(Initial(), steps, t) && t.frames == map[]
    ensures {o, inv} <= t.stored && CallsFor(inv, o) && !IsCascadeOf(Create(o, inv), t.stored)
  {
    hide Reaches, Precedes, Create, IsCascadeOf, CallsFor, Consistent;
    var c := Plain(0, name, {});
    var foreign := Plain(1, other, {c});
    o := Plain(2, name, {c});
    inv := Invalidating(3, c, {});
    EmptyStoreIsFine();
    steps, t := SaveQuietly(Initial(), [], Initial(), c);
    steps, t := SaveQuietly(Initial(), steps, t, foreign);
    steps, t := SaveQuietly(Initial(), steps, t, o);
    steps, t := StoreSolo(Initial(), steps, t, inv);
    steps, t := SoloStep(Initial(), steps, t, Causes(inv, {}), FinishCauses);
    steps, t := SoloStep(Initial(), steps, t, Checking(inv), LoadConsequences);
    assert {foreign, o} <= t.frames[0].conseqs by { FollowsNothing(foreign, inv); FollowsNothing(o, inv); }
    assert !IsCascadeOf(Create(o, inv), t.stored) by { NoCascadeStored(t, o, inv); }
    RunsStayConsistent(Initial(), steps, t);
    steps, t := ThrowAlone(steps, t, o, inv, foreign);
  }

  /** A save on its own throws. */
  lemma ThrowAlone(steps: seq<Step>, s: State, o: Op, inv: Op, foreign: Op) returns (longer: seq<Step>, t: State)
    requires Reaches(Initial(), steps, s) && Consistent(s) && s.frames.Keys == {0}
    requires s.frames[0].Undoing? && s.frames[0].op == inv && {foreign, o} <= s.frames[0].conseqs
    requires inv.kind.InvalidateAfter? && foreign.targetObject != inv.targetObject
    requires o.targetObject == inv.targetObject && !IsCascadeOf(Create(o, inv), s.stored)
    ensures Reaches(Initial(), longer, t) && t.frames == map[]
    ensures {o, inv} <= t.stored && CallsFor(inv, o) && !IsCascadeOf(Create(o, inv), t.stored)
  {
    hide Reaches, CallsFor, Create, Consistent, CanStep, Next;
    var drop := Continue(0, Undo(foreign), 1);
    ThrowEnds(s, drop, foreign);
    ConsequenceIsCalledFor(s, o);
    RunContinues(Initial(), steps, s, drop);
    longer, t := steps + [drop], Next(s, drop);
  }

  lemma ThrowEnds(s: State, drop: Step, foreign: Op)
    requires s.frames.Keys == {0} && s.frames[0].Undoing? && foreign in s.frames[0].conseqs
    requires s.frames[0].op.kind.InvalidateAfter? && foreign.targetObject != s.frames[0].op.targetObject
    requires drop == Continue(0, Undo(foreign), 1)
    ensures CanStep(s, drop) && Next(s, drop) == State(s.stored, map[])
  {
    hide Create;
    ForeignThrows(foreign, s.frames[0].op);
    assert s.frames - {0} == map[];
  }

  lemma ConsequenceIsCalledFor(s: State, o: Op)
    requires Consistent(s) && 0 in s.frames && s.frames[0].Undoing? && o in s.frames[0].conseqs
    requires s.frames[0].op.kind.InvalidateAfter? && o.targetObject == s.frames[0].op.targetObject
    ensures CallsFor(s.frames[0].op, o) && {o, s.frames[0].op} <= s.stored
  {
    hide Precedes, WellFormed;
    FrameOf(s, 0);
  }

  lemma ForeignThrows(o: Op, inv: Op)
    requires inv.kind.InvalidateAfter? && o.targetObject != inv.targetObject
    ensures Create(o, inv).None?
  {
  }

  lemma FollowsNothing(p: Op, op: Op)
    requires op.prevs == {}
    ensures !Precedes(p, op)
  {
  }

  lemma NoCascadeStored(t: State, o: Op, inv: Op)
    requires IsInvalidation(inv) && forall x :: x in t.stored ==> !IsCascade(x)
    ensures !IsCascadeOf(Create(o, inv), t.stored)
  {
    hide Create;
  }

  lemma {:induction false} RunsStayConsistent(s: State, steps: seq<Step>, t: State)
    requires Consistent(s) && Reaches(s, steps, t)
    ensures Consistent(t)
    decreases |steps|
  {
    hide Consistent, CanStep, Next;
    if steps != [] {
      StepKeepsConsistent(s, steps[0]);
      RunsStayConsistent(Next(s, steps[0]), steps[1..], t);
    }
  }
}
