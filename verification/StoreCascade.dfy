/** How saving an op to the store makes it cascade: a state machine over the saves that are
    in progress. Each step is what one of them does between two awaits, and any of them may
    be the next to take one. */
module StoreCascades {
  import opened Hashing
  import opened CausalOps

  /** One activation of a save, by how far it has come. */
  datatype Frame =
    | Entered(op: Op)
    | Depending(op: Op)                                      // not stored yet: its dependencies go first
    | Causes(op: Op, todo: set<Op>)                          // stored: causal ops still to look up
    | Cascading(op: Op, todo: set<Op>, invs: set<Op>)        // and invalidations of one still to cascade
    | Checking(op: Op)                                       // an invalidation: consequences not loaded yet
    | Undoing(op: Op, conseqs: set<Op>)                      // and consequences still to undo or redo

  /** What a save does next. */
  datatype Act =
    | Check
    | Abort
    | Store
    | LookUp(cause: Op)
    | Cascade(inv: Op)
    | NextCause
    | FinishCauses
    | LoadConsequences
    | Undo(conseq: Op)
    | Finish

  /** The ops that an op's literal depends on, all of them saved before it. */
  function Deps(op: Op): set<Op> {
    op.causal + if IsInvalidation(op) then {Target(op)} else {}
  }

  /** The test on an invalidation found for a newly stored op. */
  predicate ShouldCascade(inv: Op, op: Op) {
    inv.kind.Cascade? || (inv.kind.InvalidateAfter? && inv.targetObject == op.targetObject)
  }

  /** The test on a dependent op found for a newly stored invalidation. */
  predicate IsConsequence(o: Op, inv: Op)
    requires IsInvalidation(inv)
  {
    Target(inv) in o.causal && (inv.kind.InvalidateAfter? ==> !Precedes(o, inv))
  }

  function InvalidationsOf(stored: set<Op>, cause: Op, op: Op): set<Op> {
    set i | i in stored && IsInvalidation(i) && Target(i) == cause && ShouldCascade(i, op)
  }

  function ConsequencesOf(stored: set<Op>, inv: Op): set<Op>
    requires IsInvalidation(inv)
  {
    set o | o in stored && IsConsequence(o, inv)
  }

  predicate CanAct(f: Frame, stored: set<Op>, act: Act) {
    match act
    case Check => f.Entered?
    case Abort => f.Depending? && (!IsCascade(f.op) || !(Deps(f.op) + f.op.prevs <= stored))
    case Store => f.Depending? && Deps(f.op) + f.op.prevs <= stored
    case LookUp(cause) => f.Causes? && cause in f.todo
    case Cascade(inv) => f.Cascading? && inv in f.invs && IsInvalidation(inv)
    case NextCause => f.Cascading? && f.invs == {}
    case FinishCauses => f.Causes? && f.todo == {}
    case LoadConsequences => f.Checking? && IsInvalidation(f.op)
    case Undo(o) => f.Undoing? && o in f.conseqs && IsInvalidation(f.op)
    case Finish => f.Undoing? && f.conseqs == {}
  }

  /** The op whose save an action calls; `None` also when its constructor throws. */
  function Called(f: Frame, stored: set<Op>, act: Act): Option<Op>
    requires CanAct(f, stored, act)
  {
    match act
    case Cascade(inv) => Create(f.op, inv)
    case Undo(o) => Create(o, f.op)
    case _ => None
  }

  /** What becomes of the save; `None` once it has returned or thrown. */
  function After(f: Frame, stored: set<Op>, act: Act): Option<Frame>
    requires CanAct(f, stored, act)
  {
    match act
    case Check => if f.op in stored then None else Some(Depending(f.op))
    case Abort => None
    case Store => Some(Causes(f.op, f.op.causal))
    case LookUp(cause) => Some(Cascading(f.op, f.todo - {cause}, InvalidationsOf(stored, cause, f.op)))
    case Cascade(inv) => if Create(f.op, inv).None? then None else Some(Cascading(f.op, f.todo, f.invs - {inv}))
    case NextCause => Some(Causes(f.op, f.todo))
    case FinishCauses => if IsInvalidation(f.op) then Some(Checking(f.op)) else None
    case LoadConsequences => Some(Undoing(f.op, ConsequencesOf(stored, f.op)))
    case Undo(o) => if Create(o, f.op).None? then None else Some(Undoing(f.op, f.conseqs - {o}))
    case Finish => None
  }

  // ----- runs -----

  datatype State = State(stored: set<Op>, frames: map<nat, Frame>)

  /** Some save starts, from outside or for a dependency, or one goes on. */
  datatype Step = Start(id: nat, op: Op) | Continue(id: nat, act: Act, child: nat)

  function Initial(): State {
    State({}, map[])
  }

  predicate CanStep(s: State, step: Step) {
    match step
    case Start(id, op) => id !in s.frames && WellFormed(op)
    case Continue(id, act, child) => id in s.frames && CanAct(s.frames[id], s.stored, act) && child !in s.frames
  }

  function Next(s: State, step: Step): State
    requires CanStep(s, step)
  {
    match step
    case Start(id, op) => s.(frames := s.frames[id := Entered(op)])
    case Continue(id, act, child) =>
      var f := s.frames[id];
      State(if act.Store? then s.stored + {f.op} else s.stored,
            Put(Put(s.frames - {id}, id, After(f, s.stored, act)), child, Enter(Called(f, s.stored, act))))
  }

  function Put(frames: map<nat, Frame>, id: nat, f: Option<Frame>): map<nat, Frame> {
    if f.Some? then frames[id := f.value] else frames
  }

  function Enter(called: Option<Op>): Option<Frame> {
    if called.Some? then Some(Entered(called.value)) else None
  }

  /** The ops that are saved from outside, or for a dependency, in the course of a run. */
  function GivenOf(steps: seq<Step>): set<Op> {
    set step | step in steps && step.Start? :: step.op
  }

  /** The steps lead from one state to the other. */
  ghost predicate Reaches(s: State, steps: seq<Step>, t: State)
    decreases |steps|
  {
    if steps == [] then s == t
    else CanStep(s, steps[0]) && Reaches(Next(s, steps[0]), steps[1..], t)
  }

  // ----- what every step keeps -----

  /** The invalidation calls for an undo or redo of `o`. */
  ghost predicate CallsFor(inv: Op, o: Op) {
    && IsInvalidation(inv) && Target(inv) in o.causal
    && (inv.kind.InvalidateAfter? ==> inv.targetObject == o.targetObject && !Precedes(o, inv))
  }

  ghost predicate IsCascadeOf(r: Option<Op>, stored: set<Op>) {
    r.Some? && r.value in stored
  }

  /** A save in progress that will see to the undo or redo of `o` that `inv` calls for. */
  ghost predicate Responsible(f: Frame, o: Op, inv: Op)
    requires IsInvalidation(inv)
  {
    match f
    case Entered(op) => Create(o, inv) == Some(op)
    case Depending(op) => Create(o, inv) == Some(op)
    case Causes(op, todo) => (op == o && Target(inv) in todo) || op == inv
    case Cascading(op, todo, invs) => (op == o && (Target(inv) in todo || inv in invs)) || op == inv
    case Checking(op) => op == inv
    case Undoing(op, conseqs) => op == inv && o in conseqs
  }

  ghost predicate Settled(s: State, o: Op, inv: Op)
    requires IsInvalidation(inv)
  {
    IsCascadeOf(Create(o, inv), s.stored) || exists id :: id in s.frames && Responsible(s.frames[id], o, inv)
  }

  /** Every undo and redo that is called for is stored, or a save in progress sees to it. */
  ghost predicate Covered(s: State) {
    forall o, inv :: o in s.stored && inv in s.stored && CallsFor(inv, o) ==> Settled(s, o, inv)
  }

  ghost predicate FrameSound(f: Frame, stored: set<Op>) {
    && WellFormed(f.op)
    && (f.Causes? || f.Cascading? || f.Checking? || f.Undoing? ==> f.op in stored)
    && (f.Checking? || f.Undoing? ==> IsInvalidation(f.op))
    && (f.Causes? || f.Cascading? ==> f.todo <= f.op.causal)
    && (f.Cascading? ==> forall i :: i in f.invs ==>
          i in stored && IsInvalidation(i) && Target(i) in f.op.causal && ShouldCascade(i, f.op))
    && (f.Undoing? ==> forall o :: o in f.conseqs ==> o in stored && IsConsequence(o, f.op))
  }

  ghost predicate Consistent(s: State) {
    && (forall o :: o in s.stored ==> WellFormed(o) && Deps(o) + o.prevs <= s.stored)
    && (forall id :: id in s.frames ==> FrameSound(s.frames[id], s.stored))
  }

  /** Ops that depend directly on the target of an InvalidateAfterOp are on its object. */
  ghost predicate SameObject(stored: set<Op>) {
    forall o, inv :: o in stored && inv in stored && inv.kind.InvalidateAfter? && inv.kind.invalidated in o.causal ==>
      o.targetObject == inv.targetObject
  }

  /** The constructor of a called for undo or redo throws only across objects. */
  lemma CreateSucceeds(o: Op, inv: Op)
    requires WellFormed(o) && WellFormed(inv) && IsInvalidation(inv) && Target(inv) in o.causal
    ensures Create(o, inv).Some? <==> (inv.kind.InvalidateAfter? ==> inv.targetObject == o.targetObject)
    ensures Create(o, inv).Some? ==>
              WellFormed(Create(o, inv).value) && Deps(Create(o, inv).value) + Create(o, inv).value.prevs == {o, inv}
  {
  }

  /** A step leaves every other save alone. */
  lemma StepEffect(s: State, step: Step, id: nat)
    requires CanStep(s, step)
    ensures s.stored <= Next(s, step).stored
    ensures id in s.frames && (step.Start? || id != step.id) ==>
              id in Next(s, step).frames && Next(s, step).frames[id] == s.frames[id]
    ensures id in Next(s, step).frames ==>
              || (id in s.frames && Next(s, step).frames[id] == s.frames[id])
              || (step.Start? && id == step.id && Next(s, step).frames[id] == Entered(step.op))
              || (step.Continue? && IsNew(s.frames[step.id], s.stored, step.act, Next(s, step).frames[id]))
    ensures step.Continue? ==> forall g :: IsNew(s.frames[step.id], s.stored, step.act, g) ==>
              exists k :: k in Next(s, step).frames && Next(s, step).frames[k] == g
  {
    if step.Continue? {
      var f, t := s.frames[step.id], Next(s, step);
      if After(f, s.stored, step.act).Some? {
        assert step.id in t.frames && t.frames[step.id] == After(f, s.stored, step.act).value;
      }
      if Called(f, s.stored, step.act).Some? {
        assert step.child in t.frames && t.frames[step.child] == Entered(Called(f, s.stored, step.act).value);
      }
    }
  }

  /** A save that an action goes on as, or calls. */
  ghost predicate IsNew(f: Frame, stored: set<Op>, act: Act, g: Frame)
    requires CanAct(f, stored, act)
  {
    After(f, stored, act) == Some(g) || Enter(Called(f, stored, act)) == Some(g)
  }

  lemma ActIsSound(f: Frame, stored: set<Op>, act: Act, g: Frame)
    requires FrameSound(f, stored) && CanAct(f, stored, act) && IsNew(f, stored, act, g)
    requires forall o :: o in stored ==> WellFormed(o)
    ensures FrameSound(g, if act.Store? then stored + {f.op} else stored)
  {
    hide WellFormed, Precedes, Create;
    if act.Cascade? {
      CreateSucceeds(f.op, act.inv);
    } else if act.Undo? {
      CreateSucceeds(act.conseq, f.op);
    }
  }

  lemma StepKeepsConsistent(s: State, step: Step)
    requires Consistent(s) && CanStep(s, step)
    ensures Consistent(Next(s, step))
  {
    hide WellFormed, Precedes, Create, After, Called, FrameSound, Deps;
    var t := Next(s, step);
    assert forall o :: o in t.stored ==> WellFormed(o) && Deps(o) + o.prevs <= t.stored by {
      StoredStaysClosed(s, step);
    }
    forall id | id in t.frames
      ensures FrameSound(t.frames[id], t.stored)
    {
      StepEffect(s, step, id);
      if step.Continue? && IsNew(s.frames[step.id], s.stored, step.act, t.frames[id]) {
        ActIsSound(s.frames[step.id], s.stored, step.act, t.frames[id]);
      } else if id in s.frames && t.frames[id] == s.frames[id] {
        FrameStaysSound(s.frames[id], s.stored, t.stored);
      } else {
        EnteredIsSound(step.op, t.stored);
      }
    }
  }

  lemma StoredStaysClosed(s: State, step: Step)
    requires Consistent(s) && CanStep(s, step)
    ensures forall o :: o in Next(s, step).stored ==> WellFormed(o) && Deps(o) + o.prevs <= Next(s, step).stored
  {
    hide WellFormed, Precedes, Create, After, Called, Deps;
    if step.Continue? {
      FrameOf(s, step.id);
    }
  }

  lemma EnteredIsSound(op: Op, stored: set<Op>)
    requires WellFormed(op)
    ensures FrameSound(Entered(op), stored)
  {
  }

  lemma FrameStaysSound(f: Frame, before: set<Op>, after: set<Op>)
    requires FrameSound(f, before) && before <= after
    ensures FrameSound(f, after)
  {
  }

  lemma FrameOf(s: State, id: nat)
    requires Consistent(s) && id in s.frames
    ensures FrameSound(s.frames[id], s.stored)
    ensures forall o :: o in s.stored ==> WellFormed(o)
  {
  }

  /** How far a save still has to go: the part it is in, the causes it has still to deal with,
      and what it has found for the present one. */
  ghost function Part(f: Frame): nat {
    match f
    case Entered(_) => 4
    case Depending(_) => 3
    case Causes(_, _) => 2
    case Cascading(_, _, _) => 2
    case Checking(_) => 1
    case Undoing(_, _) => 0
  }

  ghost function CausesLeft(f: Frame): nat {
    if f.Causes? then 2 * |f.todo| else if f.Cascading? then 2 * |f.todo| + 1 else 0
  }

  ghost function FoundLeft(f: Frame): nat {
    if f.Cascading? then |f.invs| else if f.Undoing? then |f.conseqs| else 0
  }

  ghost predicate IsNearer(g: Frame, f: Frame) {
    || Part(g) < Part(f)
    || (Part(g) == Part(f) && CausesLeft(g) < CausesLeft(f))
    || (Part(g) == Part(f) && CausesLeft(g) == CausesLeft(f) && FoundLeft(g) < FoundLeft(f))
  }

  /** A save is never stuck, and each of its actions brings it nearer to its end: it takes
      finitely many, besides those of the saves that it calls. */
  lemma SaveComesToItsEnd(f: Frame, stored: set<Op>)
    requires FrameSound(f, stored)
    ensures exists act :: CanAct(f, stored, act)
    ensures forall act :: CanAct(f, stored, act) && After(f, stored, act).Some? ==>
              IsNearer(After(f, stored, act).value, f)
  {
    hide *;
    var act := ActOf(f, stored);
    assert CanAct(f, stored, act);
    forall act | CanAct(f, stored, act) && After(f, stored, act).Some?
      ensures IsNearer(After(f, stored, act).value, f)
    {
      ActGoesNearer(f, stored, act);
    }
  }

  lemma ActGoesNearer(f: Frame, stored: set<Op>, act: Act)
    requires CanAct(f, stored, act) && After(f, stored, act).Some?
    ensures IsNearer(After(f, stored, act).value, f)
  {
    hide *;
    if act.LookUp? {
      LookUpGoesNearer(f, stored, act.cause);
    } else if act.Cascade? || act.Undo? {
      UndoGoesNearer(f, stored, act);
    } else {
      PartGoesNearer(f, stored, act);
    }
  }

  lemma LookUpGoesNearer(f: Frame, stored: set<Op>, cause: Op)
    requires CanAct(f, stored, LookUp(cause))
    ensures IsNearer(After(f, stored, LookUp(cause)).value, f)
  {
    hide InvalidationsOf;
    OneLess(f.todo, cause);
  }

  lemma UndoGoesNearer(f: Frame, stored: set<Op>, act: Act)
    requires CanAct(f, stored, act) && (act.Cascade? || act.Undo?) && After(f, stored, act).Some?
    ensures IsNearer(After(f, stored, act).value, f)
  {
    hide Create, IsInvalidation;
    if act.Cascade? {
      OneLess(f.invs, act.inv);
    } else {
      OneLess(f.conseqs, act.conseq);
    }
  }

  lemma PartGoesNearer(f: Frame, stored: set<Op>, act: Act)
    requires CanAct(f, stored, act) && !act.LookUp? && !act.Cascade? && !act.Undo? && After(f, stored, act).Some?
    ensures IsNearer(After(f, stored, act).value, f)
  {
    hide Deps, IsInvalidation, IsCascade, ConsequencesOf;
  }

  lemma OneLess(s: set<Op>, x: Op)
    requires x in s
    ensures |s - {x}| == |s| - 1
  {
  }

  lemma ActOf(f: Frame, stored: set<Op>) returns (act: Act)
    requires FrameSound(f, stored)
    ensures CanAct(f, stored, act)
  {
    hide WellFormed, Precedes, Create, Deps;
    match f
    case Entered(_) => act := Check;
    case Depending(op) => act := if Deps(op) + op.prevs <= stored then Store else Abort;
    case Causes(_, todo) =>
      act := FinishCauses;
      if cause :| cause in todo {
        act := LookUp(cause);
      }
    case Cascading(_, _, invs) =>
      act := NextCause;
      if inv :| inv in invs {
        act := Act.Cascade(inv);
      }
    case Checking(_) => act := LoadConsequences;
    case Undoing(_, conseqs) =>
      act := Finish;
      if o :| o in conseqs {
        act := Undo(o);
      }
  }

  /** The constructor of an undo throws, which ends the save. */
  predicate Throws(f: Frame, act: Act) {
    act.Undo? && IsInvalidation(f.op) && Create(act.conseq, f.op).None?
  }

  /** What a save was responsible for is done, or still taken care of, after its action, unless
      that throws. */
  lemma Handover(f: Frame, stored: set<Op>, act: Act, o: Op, inv: Op) returns (g: Option<Frame>)
    requires FrameSound(f, stored) && CanAct(f, stored, act) && !Throws(f, act)
    requires forall o :: o in stored ==> WellFormed(o)
    requires o in stored && inv in stored && CallsFor(inv, o) && Responsible(f, o, inv)
    ensures g.Some? ==> IsNew(f, stored, act, g.value) && Responsible(g.value, o, inv)
    ensures g.None? ==> IsCascadeOf(Create(o, inv), if act.Store? then stored + {f.op} else stored)
  {
    hide *;
    if act.Cascade? {
      g := CascadeHandsOver(f, stored, act, o, inv);
    } else if act.Undo? {
      g := UndoHandsOver(f, stored, act, o, inv);
    } else if act.Check? || act.Abort? || act.Store? {
      g := SavingHandsOver(f, stored, act, o, inv);
    } else if act.LoadConsequences? {
      g := LoadingHandsOver(f, stored, act, o, inv);
    } else {
      g := LookingUpHandsOver(f, stored, act, o, inv);
    }
  }

  /** The op that is being saved for their sake can be stored, and ends up stored. */
  lemma SavingHandsOver(f: Frame, stored: set<Op>, act: Act, o: Op, inv: Op) returns (g: Option<Frame>)
    requires FrameSound(f, stored) && CanAct(f, stored, act) && (act.Check? || act.Abort? || act.Store?)
    requires {o, inv} <= stored && WellFormed(o) && WellFormed(inv) && CallsFor(inv, o) && Responsible(f, o, inv)
    ensures g.Some? ==> IsNew(f, stored, act, g.value) && Responsible(g.value, o, inv)
    ensures g.None? ==> IsCascadeOf(Create(o, inv), if act.Store? then stored + {f.op} else stored)
  {
    hide WellFormed, Precedes, Create;
    CreateSucceeds(o, inv);
    g := if act.Store? then None else After(f, stored, act);
  }

  lemma LoadingHandsOver(f: Frame, stored: set<Op>, act: Act, o: Op, inv: Op) returns (g: Option<Frame>)
    requires CanAct(f, stored, act) && act.LoadConsequences?
    requires o in stored && CallsFor(inv, o) && Responsible(f, o, inv)
    ensures g.Some? && IsNew(f, stored, act, g.value) && Responsible(g.value, o, inv)
  {
    hide WellFormed, Precedes, Create;
    g := After(f, stored, act);
  }

  lemma LookingUpHandsOver(f: Frame, stored: set<Op>, act: Act, o: Op, inv: Op) returns (g: Option<Frame>)
    requires CanAct(f, stored, act) && (act.LookUp? || act.NextCause? || act.FinishCauses? || act.Finish?)
    requires inv in stored && CallsFor(inv, o) && Responsible(f, o, inv)
    ensures g.Some? && IsNew(f, stored, act, g.value) && Responsible(g.value, o, inv)
  {
    hide WellFormed, Precedes, Create;
    g := After(f, stored, act);
  }

  lemma CascadeHandsOver(f: Frame, stored: set<Op>, act: Act, o: Op, inv: Op) returns (g: Option<Frame>)
    requires FrameSound(f, stored) && CanAct(f, stored, act) && act.Cascade?
    requires forall o :: o in stored ==> WellFormed(o)
    requires o in stored && inv in stored && CallsFor(inv, o) && Responsible(f, o, inv)
    ensures g.Some? && IsNew(f, stored, act, g.value) && Responsible(g.value, o, inv)
  {
    hide WellFormed, Precedes, Create;
    CreateSucceeds(f.op, act.inv);
    g := if f.op == o && act.inv == inv then Enter(Called(f, stored, act)) else After(f, stored, act);
  }

  lemma UndoHandsOver(f: Frame, stored: set<Op>, act: Act, o: Op, inv: Op) returns (g: Option<Frame>)
    requires CanAct(f, stored, act) && act.Undo? && !Throws(f, act)
    requires o in stored && inv in stored && CallsFor(inv, o) && Responsible(f, o, inv)
    ensures g.Some? && IsNew(f, stored, act, g.value) && Responsible(g.value, o, inv)
  {
    hide WellFormed, Precedes, Create;
    g := if f.op == inv && act.conseq == o then Enter(Called(f, stored, act)) else After(f, stored, act);
  }

  /** A save ends by throwing while an undo is left to it alone. */
  ghost predicate Drops(s: State, step: Step)
    requires CanStep(s, step)
  {
    && step.Continue? && Throws(s.frames[step.id], step.act)
    && exists o :: IsLeftTo(s, step.id, o)
  }

  /** The undo of `o` that a save has still to see to is not stored, and no other save sees to it. */
  ghost predicate IsLeftTo(s: State, id: nat, o: Op)
    requires id in s.frames
  {
    var f := s.frames[id];
    && f.Undoing? && o in f.conseqs && IsInvalidation(f.op) && CallsFor(f.op, o)
    && !IsCascadeOf(Create(o, f.op), s.stored)
    && forall k :: k in s.frames && k != id ==> !Responsible(s.frames[k], o, f.op)
  }

  /** Every step keeps all that is called for covered, exactly unless it drops an undo. */
  lemma StepKeepsCovered(s: State, step: Step)
    requires Consistent(s) && CanStep(s, step) && Covered(s)
    ensures Covered(Next(s, step)) <==> !Drops(s, step)
  {
    hide Precedes, WellFormed, Create, Settled, IsLeftTo, Next, Throws, CanAct;
    var t := Next(s, step);
    if Drops(s, step) {
      var o :| IsLeftTo(s, step.id, o);
      ThrowLosesCascades(s, step, o);
    } else {
      forall o, inv | o in t.stored && inv in t.stored && CallsFor(inv, o)
        ensures Settled(t, o, inv)
      {
        StaysSettled(s, step, o, inv);
      }
    }
  }

  lemma StaysSettled(s: State, step: Step, o: Op, inv: Op)
    requires Consistent(s) && CanStep(s, step) && Covered(s) && !Drops(s, step)
    requires o in Next(s, step).stored && inv in Next(s, step).stored && CallsFor(inv, o)
    ensures Settled(Next(s, step), o, inv)
  {
    hide WellFormed, Precedes, Create, After, Called, Throws;
    if o !in s.stored || inv !in s.stored {
      StoringTakesCharge(s, step, o, inv);
    } else if !IsCascadeOf(Create(o, inv), s.stored) {
      assert Settled(s, o, inv);
      var id :| id in s.frames && Responsible(s.frames[id], o, inv);
      if step.Continue? && id == step.id && Throws(s.frames[id], step.act) {
        id := OtherIsResponsible(s, step, o, inv);
      }
      ResponsibilityStays(s, step, id, o, inv);
    }
  }

  /** When a save throws without dropping anything, another one sees to what is left to it. */
  lemma OtherIsResponsible(s: State, step: Step, o: Op, inv: Op) returns (k: nat)
    requires CanStep(s, step) && step.Continue? && Throws(s.frames[step.id], step.act) && !Drops(s, step)
    requires CallsFor(inv, o) && !IsCascadeOf(Create(o, inv), s.stored) && Responsible(s.frames[step.id], o, inv)
    ensures k in s.frames && k != step.id && Responsible(s.frames[k], o, inv)
  {
    hide CallsFor, Create;
    assert !IsLeftTo(s, step.id, o);
    k :| k in s.frames && k != step.id && Responsible(s.frames[k], o, inv);
  }

  lemma ResponsibilityStays(s: State, step: Step, id: nat, o: Op, inv: Op)
    requires Consistent(s) && CanStep(s, step) && o in s.stored && inv in s.stored && CallsFor(inv, o)
    requires id in s.frames && Responsible(s.frames[id], o, inv)
    requires step.Continue? && id == step.id ==> !Throws(s.frames[id], step.act)
    ensures Settled(Next(s, step), o, inv)
  {
    hide WellFormed, Precedes, Create, After, Called, Throws;
    StepEffect(s, step, id);
    if step.Continue? && id == step.id {
      var g := Handover(s.frames[id], s.stored, step.act, o, inv);
      if g.Some? {
        var k :| k in Next(s, step).frames && Next(s, step).frames[k] == g.value;
      }
    }
  }

  /** A dropped undo is called for and neither stored nor seen to by any save. */
  lemma ThrowLosesCascades(s: State, step: Step, o: Op)
    requires Consistent(s) && CanStep(s, step) && step.Continue? && Throws(s.frames[step.id], step.act)
    requires IsLeftTo(s, step.id, o)
    ensures var inv := s.frames[step.id].op;
            {o, inv} <= Next(s, step).stored && CallsFor(inv, o) && !Settled(Next(s, step), o, inv)
    ensures !Covered(Next(s, step))
  {
    hide WellFormed, Precedes, Create, CallsFor;
    FrameOf(s, step.id);
    assert step.act.Undo?;
    var t := Next(s, step);
    assert t.frames == s.frames - {step.id} && t.stored == s.stored;
    assert !Settled(t, o, s.frames[step.id].op);
  }

  /** The save of the later one of the two takes care of them when it is stored. */
  lemma StoringTakesCharge(s: State, step: Step, o: Op, inv: Op)
    requires CanStep(s, step) && (o !in s.stored || inv !in s.stored)
    requires o in Next(s, step).stored && inv in Next(s, step).stored && CallsFor(inv, o)
    ensures Settled(Next(s, step), o, inv)
  {
    hide Precedes, Create;
    var op := s.frames[step.id].op;
    StepEffect(s, step, step.id);
    assert IsNew(s.frames[step.id], s.stored, step.act, Causes(op, op.causal));
    assert Responsible(Causes(op, op.causal), o, inv);
  }

  ghost predicate NeverDrops(s: State, steps: seq<Step>)
    decreases |steps|
  {
    steps != [] ==>
      CanStep(s, steps[0]) && !Drops(s, steps[0]) && NeverDrops(Next(s, steps[0]), steps[1..])
  }

  /** Cascade completeness. Over any interleaving of saves, whichever of the two ops is
      stored first: unless a step drops an undo, every undo and redo called for is stored once
      no save is in progress. */
  lemma {:induction false} CascadesComplete(s: State, steps: seq<Step>, t: State)
    requires Consistent(s) && Covered(s) && Reaches(s, steps, t) && NeverDrops(s, steps)
    ensures Consistent(t) && Covered(t)
    ensures t.frames == map[] ==> forall o, inv :: o in t.stored && inv in t.stored && CallsFor(inv, o) ==>
              IsCascadeOf(Create(o, inv), t.stored)
    decreases |steps|
  {
    hide Consistent, CanStep, Next, Drops, CallsFor;
    if steps != [] {
      StepKeepsConsistent(s, steps[0]);
      StepKeepsCovered(s, steps[0]);
      CascadesComplete(Next(s, steps[0]), steps[1..], t);
    }
    forall o, inv | t.frames == map[] && Covered(t) && o in t.stored && inv in t.stored && CallsFor(inv, o)
      ensures IsCascadeOf(Create(o, inv), t.stored)
    {
      assert Settled(t, o, inv);
    }
  }

  /** Nothing is dropped while what depends on the targets of InvalidateAfterOps is on their objects. */
  lemma {:induction false} OneObjectNeverDrops(s: State, steps: seq<Step>, t: State)
    requires Consistent(s) && Reaches(s, steps, t) && SameObject(t.stored)
    ensures NeverDrops(s, steps)
    decreases |steps|
  {
    hide Consistent, CanStep, Next, Drops;
    if steps != [] {
      StoredOnlyGrows(s, steps, t);
      StepKeepsConsistent(s, steps[0]);
      OneObjectDropsNothing(s, steps[0], t.stored);
      OneObjectNeverDrops(Next(s, steps[0]), steps[1..], t);
    }
  }

  lemma OneObjectDropsNothing(s: State, step: Step, all: set<Op>)
    requires Consistent(s) && CanStep(s, step) && s.stored <= all && SameObject(all)
    ensures !Drops(s, step)
  {
    hide WellFormed, Precedes, Create, IsLeftTo;
    if step.Continue? && Throws(s.frames[step.id], step.act) {
      FrameOf(s, step.id);
      CreateSucceeds(step.act.conseq, s.frames[step.id].op);
    }
  }

  /** Some op is the undo or redo of `o` that `inv` causes: an undo of a plain op or of a redo,
      and a redo of an undo. */
  ghost predicate IsUndoneOrRedone(o: Op, inv: Op, stored: set<Op>) {
    exists casc :: casc in stored && casc.kind == Kind.Cascade(!(o.kind.Cascade? && o.kind.undo), o) &&
                   casc.causal == {inv}
  }

  /** The same from an empty store, said of the ops themselves: what rests on the target of a
      stored undo or redo is undone or redone too, and of what rests on the target of an
      InvalidateAfterOp that which is not in its past. */
  lemma StoreRunsCascade(steps: seq<Step>, t: State, o: Op, inv: Op)
    requires Reaches(Initial(), steps, t) && t.frames == map[] && SameObject(t.stored)
    requires o in t.stored && inv in t.stored
    ensures inv.kind.Cascade? && inv.kind.target in o.causal ==> IsUndoneOrRedone(o, inv, t.stored)
    ensures inv.kind.InvalidateAfter? && inv.kind.invalidated in o.causal && !Precedes(o, inv) ==>
              IsUndoneOrRedone(o, inv, t.stored)
  {
    hide Precedes, WellFormed;
    OneObjectNeverDrops(Initial(), steps, t);
    CascadesComplete(Initial(), steps, t);
    if CallsFor(inv, o) {
      assert IsCascadeOf(Create(o, inv), t.stored);
    }
  }

  /** What an op directly follows, rests on or is aimed at is stored before it. */
  lemma {:induction false} StoredAfterItsNeeds(s: State, steps: seq<Step>, t: State)
    requires Consistent(s) && Reaches(s, steps, t)
    ensures forall o :: o in t.stored ==>
              && o.prevs <= t.stored && o.causal <= t.stored
              && (o.kind.InvalidateAfter? ==> o.kind.invalidated in t.stored)
              && (o.kind.Cascade? ==> o.kind.target in t.stored)
    decreases |steps|
  {
    hide CanStep, Next, WellFormed, FrameSound;
    if steps != [] {
      StepKeepsConsistent(s, steps[0]);
      StoredAfterItsNeeds(Next(s, steps[0]), steps[1..], t);
    } else {
      forall o | o in s.stored && o.kind.InvalidateAfter?
        ensures o.kind.invalidated in s.stored
      {
        assert o.kind.invalidated in Deps(o);
      }
    }
  }

  lemma {:induction false} StoredOnlyGrows(s: State, steps: seq<Step>, t: State)
    requires Reaches(s, steps, t)
    ensures s.stored <= t.stored
    decreases |steps|
  {
    if steps != [] {
      StepEffect(s, steps[0], 0);
      StoredOnlyGrows(Next(s, steps[0]), steps[1..], t);
    }
  }

  // ----- building runs -----

  /** Continues a run with an action of one save. */
  lemma OneMoreStep(s: State, steps: seq<Step>, t: State, id: nat, act: Act) returns (longer: seq<Step>, u: State)
    requires Reaches(s, steps, t) && id in t.frames && CanAct(t.frames[id], t.stored, act)
    ensures |longer| == |steps| + 1 && longer[..|steps|] == steps && longer[|steps|].Continue?
    ensures longer[|steps|].id == id && longer[|steps|].act == act && Reaches(s, longer, u)
    ensures CanStep(t, longer[|steps|]) && u == Next(t, longer[|steps|])
  {
    hide CanAct, After, Called;
    var child := Unused(t.frames.Keys);
    var step := Continue(id, act, child);
    longer, u := steps + [step], Next(t, step);
    RunContinues(s, steps, t, step);
  }

  lemma {:induction false} RunContinues(s: State, steps: seq<Step>, t: State, step: Step)
    requires Reaches(s, steps, t) && CanStep(t, step)
    ensures Reaches(s, steps + [step], Next(t, step))
    decreases |steps|
  {
    hide CanStep, Next;
    var longer := steps + [step];
    if steps == [] {
      assert longer[1..] == [];
      assert Reaches(Next(s, step), longer[1..], Next(t, step));
    } else {
      RunContinues(Next(s, steps[0]), steps[1..], t, step);
      assert longer[1..] == steps[1..] + [step];
    }
  }

  lemma {:induction false} Unused(ids: set<nat>) returns (n: nat)
    ensures forall id :: id in ids ==> id < n
    decreases ids
  {
    n := 0;
    if ids != {} {
      var id :| id in ids;
      var m := Unused(ids - {id});
      n := if m > id then m else id + 1;
      assert ids == ids - {id} + {id};
    }
  }
}
