/** When undos are lost. A save that throws drops what it had still to undo; which sets of ops
    can come to that, whatever the order in which they are saved. */
module StoreLosses {
  import opened Hashing
  import opened CausalOps
  import opened StoreCascades
  import opened CascadeMerits

  /** What has to be stored before an op is. */
  function Below(x: Op): (ds: set<Op>)
    ensures forall d :: d in ds ==> d < x
  {
    Deps(x) + x.prevs
  }

  ghost predicate RestsOn(x: Op, y: Op)
    decreases x
  {
    x == y || exists d :: d in Below(x) && RestsOn(d, y)
  }

  /** The ops can all be saved. */
  ghost predicate IsClosed(ops: set<Op>) {
    forall x :: x in ops ==> WellFormed(x) && Below(x) <= ops
  }

  /** An invalidation whose target has a dependent on another object and one of its own object
      that it does not follow. The latter does not need it, and the former not its undo. */
  ghost predicate IsThreat(inv: Op, other: Op, o: Op) {
    && inv.kind.InvalidateAfter? && Target(inv) in other.causal && other.targetObject != inv.targetObject
    && CallsFor(inv, o) && !RestsOn(o, inv)
    && Create(o, inv).Some? && !RestsOn(other, Create(o, inv).value)
  }

  ghost predicate IsAtRisk(ops: set<Op>) {
    exists inv, other, o :: inv in ops && other in ops && o in ops && IsThreat(inv, other, o)
  }

  // ----- resting on -----

  lemma {:induction false} RestIsSmaller(x: Op, y: Op)
    requires RestsOn(x, y)
    ensures y == x || y < x
    decreases x
  {
    if x != y {
      var d :| d in Below(x) && RestsOn(d, y);
      RestIsSmaller(d, y);
    }
  }

  lemma {:induction false} RestIsStored(stored: set<Op>, x: Op, y: Op)
    requires forall o :: o in stored ==> Below(o) <= stored
    requires x in stored && RestsOn(x, y)
    ensures y in stored
    decreases x
  {
    if x != y {
      var d :| d in Below(x) && RestsOn(d, y);
      RestIsStored(stored, d, y);
    }
  }

  lemma StoredIsClosed(s: State)
    requires Consistent(s)
    ensures forall o :: o in s.stored ==> Below(o) <= s.stored && WellFormed(o)
  {
    hide WellFormed, FrameSound, Deps;
  }

  // ----- sets of ops that nothing can be lost of -----

  /** Whatever is no undo or redo was given. */
  ghost predicate PlainAreGiven(s: State, given: set<Op>) {
    && (forall x :: x in s.stored ==> IsCascade(x) || x in given)
    && (forall id :: id in s.frames ==> IsCascade(s.frames[id].op) || s.frames[id].op in given)
  }

  lemma StepKeepsPlainGiven(s: State, step: Step, given: set<Op>)
    requires CanStep(s, step) && PlainAreGiven(s, given) && (step.Start? ==> step.op in given)
    ensures PlainAreGiven(Next(s, step), given)
  {
    hide Create, Precedes, WellFormed;
    forall id | id in Next(s, step).frames
      ensures IsCascade(Next(s, step).frames[id].op) || Next(s, step).frames[id].op in given
    {
      StepEffect(s, step, id);
    }
  }

  /** A save of the op or of its undo that sees to the undo, not one of the invalidation. */
  ghost predicate OwnSaveSees(f: Frame, o: Op, inv: Op)
    requires IsInvalidation(inv)
  {
    match f
    case Entered(op) => Create(o, inv) == Some(op)
    case Depending(op) => Create(o, inv) == Some(op)
    case Causes(op, todo) => op == o && Target(inv) in todo
    case Cascading(op, todo, invs) => op == o && (Target(inv) in todo || inv in invs)
    case _ => false
  }

  ghost predicate IsSeenTo(s: State, o: Op, inv: Op)
    requires IsInvalidation(inv)
  {
    IsCascadeOf(Create(o, inv), s.stored) || exists id :: id in s.frames && OwnSaveSees(s.frames[id], o, inv)
  }

  /** An op that was stored after the invalidation sees to its undo itself. */
  ghost predicate LaterAreSeenTo(s: State) {
    forall o, inv :: o in s.stored && inv in s.stored && CallsFor(inv, o) && RestsOn(o, inv) ==> IsSeenTo(s, o, inv)
  }

  lemma OwnHandover(f: Frame, stored: set<Op>, act: Act, o: Op, inv: Op) returns (g: Option<Frame>)
    requires FrameSound(f, stored) && CanAct(f, stored, act)
    requires forall o :: o in stored ==> WellFormed(o)
    requires o in stored && inv in stored && CallsFor(inv, o) && OwnSaveSees(f, o, inv)
    ensures g.Some? ==> IsNew(f, stored, act, g.value) && OwnSaveSees(g.value, o, inv)
    ensures g.None? ==> IsCascadeOf(Create(o, inv), if act.Store? then stored + {f.op} else stored)
  {
    hide *;
    if act.Cascade? {
      g := OwnCascadeHandsOver(f, stored, act, o, inv);
    } else if act.Check? || act.Abort? || act.Store? {
      g := OwnSavingHandsOver(f, stored, act, o, inv);
    } else {
      g := OwnLookUpHandsOver(f, stored, act, o, inv);
    }
  }

  lemma OwnCascadeHandsOver(f: Frame, stored: set<Op>, act: Act, o: Op, inv: Op) returns (g: Option<Frame>)
    requires FrameSound(f, stored) && CanAct(f, stored, act) && act.Cascade?
    requires forall o :: o in stored ==> WellFormed(o)
    requires o in stored && CallsFor(inv, o) && OwnSaveSees(f, o, inv)
    ensures g.Some? && IsNew(f, stored, act, g.value) && OwnSaveSees(g.value, o, inv)
  {
    hide WellFormed, Precedes, Create;
    CreateSucceeds(f.op, act.inv);
    g := if act.inv == inv then Enter(Called(f, stored, act)) else After(f, stored, act);
  }

  lemma OwnSavingHandsOver(f: Frame, stored: set<Op>, act: Act, o: Op, inv: Op) returns (g: Option<Frame>)
    requires FrameSound(f, stored) && CanAct(f, stored, act) && (act.Check? || act.Abort? || act.Store?)
    requires {o, inv} <= stored && (forall o :: o in stored ==> WellFormed(o))
    requires CallsFor(inv, o) && OwnSaveSees(f, o, inv)
    ensures g.Some? ==> IsNew(f, stored, act, g.value) && OwnSaveSees(g.value, o, inv)
    ensures g.None? ==> IsCascadeOf(Create(o, inv), if act.Store? then stored + {f.op} else stored)
  {
    hide WellFormed, Precedes, Create;
    CreateSucceeds(o, inv);
    g := if act.Store? then None else After(f, stored, act);
  }

  lemma OwnLookUpHandsOver(f: Frame, stored: set<Op>, act: Act, o: Op, inv: Op) returns (g: Option<Frame>)
    requires CanAct(f, stored, act) && !act.Cascade? && !act.Check? && !act.Abort? && !act.Store?
    requires inv in stored && CallsFor(inv, o) && OwnSaveSees(f, o, inv)
    ensures g.Some? && IsNew(f, stored, act, g.value) && OwnSaveSees(g.value, o, inv)
  {
    hide WellFormed, Precedes, Create;
    g := After(f, stored, act);
  }

  lemma StepKeepsLaterSeenTo(s: State, step: Step)
    requires Consistent(s) && CanStep(s, step) && LaterAreSeenTo(s)
    ensures LaterAreSeenTo(Next(s, step))
  {
    hide Precedes, WellFormed, Create, CanAct, After, Called, IsSeenTo, RestsOn, Consistent;
    var t := Next(s, step);
    forall o, inv | o in t.stored && inv in t.stored && CallsFor(inv, o) && RestsOn(o, inv)
      ensures IsSeenTo(t, o, inv)
    {
      if o !in s.stored {
        StoringSeesToIt(s, step, o, inv);
      } else {
        StoredIsClosed(s);
        RestIsStored(s.stored, o, inv);
        StaysSeenTo(s, step, o, inv);
      }
    }
  }

  lemma StoringSeesToIt(s: State, step: Step, o: Op, inv: Op)
    requires CanStep(s, step) && o !in s.stored && o in Next(s, step).stored && CallsFor(inv, o)
    ensures IsSeenTo(Next(s, step), o, inv)
  {
    hide Precedes, Create;
    StepEffect(s, step, step.id);
    assert IsNew(s.frames[step.id], s.stored, step.act, Causes(o, o.causal));
    assert OwnSaveSees(Causes(o, o.causal), o, inv);
  }

  lemma StaysSeenTo(s: State, step: Step, o: Op, inv: Op)
    requires Consistent(s) && CanStep(s, step) && o in s.stored && inv in s.stored && CallsFor(inv, o)
    requires IsSeenTo(s, o, inv)
    ensures IsSeenTo(Next(s, step), o, inv)
  {
    hide WellFormed, Precedes, Create, After, Called, CanAct;
    if !IsCascadeOf(Create(o, inv), s.stored) {
      var id :| id in s.frames && OwnSaveSees(s.frames[id], o, inv);
      StepEffect(s, step, id);
      if step.Continue? && id == step.id {
        var g := OwnHandover(s.frames[id], s.stored, step.act, o, inv);
        if g.Some? {
          var k :| k in Next(s, step).frames && Next(s, step).frames[k] == g.value;
        }
      }
    }
  }

  /** What depends on the target of an InvalidateAfterOp is no undo or redo. */
  lemma DependentIsPlain(inv: Op, o: Op)
    requires WellFormed(inv) && inv.kind.InvalidateAfter? && WellFormed(o) && Target(inv) in o.causal
    ensures !IsCascade(o)
  {
  }

  /** What a step drops shows that the given ops were at risk. */
  lemma DropShowsRisk(s: State, step: Step, given: set<Op>)
    requires Consistent(s) && CanStep(s, step) && PlainAreGiven(s, given) && LaterAreSeenTo(s)
    requires Drops(s, step)
    ensures IsAtRisk(given)
  {
    hide WellFormed, Precedes, Create, RestsOn, CallsFor, LaterAreSeenTo, PlainAreGiven, Consistent, IsLeftTo;
    var o :| IsLeftTo(s, step.id, o);
    var inv, other := s.frames[step.id].op, step.act.conseq;
    ThrowIsForeign(s, step, o);
    StoredIsClosed(s);
    DependentIsPlain(inv, other);
    DependentIsPlain(inv, o);
    CreateSucceeds(o, inv);
    assert {inv, other, o} <= given by { DroppedAreGiven(s, step, given, o); }
    if RestsOn(o, inv) {
      LeftIsNotSeenTo(s, step, o);
      assert false;
    }
    if RestsOn(other, Create(o, inv).value) {
      RestIsStored(s.stored, other, Create(o, inv).value);
      LeftIsNotStored(s, step, o);
      assert false;
    }
    assert IsThreat(inv, other, o);
  }

  lemma ThrowIsForeign(s: State, step: Step, o: Op)
    requires Consistent(s) && CanStep(s, step) && step.Continue? && Throws(s.frames[step.id], step.act)
    requires IsLeftTo(s, step.id, o)
    ensures var inv, other := s.frames[step.id].op, step.act.conseq;
            && inv.kind.InvalidateAfter? && Target(inv) in other.causal && other.targetObject != inv.targetObject
            && WellFormed(inv) && {inv, other, o} <= s.stored
            && CallsFor(inv, o) && Target(inv) in o.causal && o.targetObject == inv.targetObject
  {
    hide WellFormed, Precedes, Create;
    FrameOf(s, step.id);
    CreateSucceeds(step.act.conseq, s.frames[step.id].op);
  }

  lemma DroppedAreGiven(s: State, step: Step, given: set<Op>, o: Op)
    requires CanStep(s, step) && step.Continue? && PlainAreGiven(s, given) && step.act.Undo?
    requires {s.frames[step.id].op, step.act.conseq, o} <= s.stored
    requires !IsCascade(s.frames[step.id].op) && !IsCascade(step.act.conseq) && !IsCascade(o)
    ensures {s.frames[step.id].op, step.act.conseq, o} <= given
  {
  }

  lemma LeftIsNotStored(s: State, step: Step, o: Op)
    requires CanStep(s, step) && step.Continue? && IsLeftTo(s, step.id, o)
    ensures !IsCascadeOf(Create(o, s.frames[step.id].op), s.stored)
  {
    hide Create, Precedes;
  }

  lemma LeftIsNotSeenTo(s: State, step: Step, o: Op)
    requires CanStep(s, step) && step.Continue? && IsLeftTo(s, step.id, o)
    requires {o, s.frames[step.id].op} <= s.stored && RestsOn(o, s.frames[step.id].op)
    ensures !LaterAreSeenTo(s)
  {
    hide Create, Precedes, RestsOn;
  }

  lemma {:induction false} RunNeverDrops(s: State, steps: seq<Step>, t: State, given: set<Op>)
    requires Consistent(s) && Reaches(s, steps, t) && GivenOf(steps) <= given && !IsAtRisk(given)
    requires PlainAreGiven(s, given) && LaterAreSeenTo(s)
    ensures NeverDrops(s, steps)
    decreases |steps|
  {
    hide Consistent, CanStep, Next, Drops, PlainAreGiven, LaterAreSeenTo, IsAtRisk;
    if steps != [] {
      assert steps[0].Start? ==> steps[0].op in GivenOf(steps);
      assert GivenOf(steps[1..]) <= GivenOf(steps);
      if Drops(s, steps[0]) {
        DropShowsRisk(s, steps[0], given);
      }
      StepKeepsConsistent(s, steps[0]);
      StepKeepsPlainGiven(s, steps[0], given);
      StepKeepsLaterSeenTo(s, steps[0]);
      RunNeverDrops(Next(s, steps[0]), steps[1..], t, given);
    }
  }

  /** Over ops that are not at risk, saved in any interleaving, nothing is ever lost. */
  lemma NothingIsLost(given: set<Op>, steps: seq<Step>, t: State)
    requires Reaches(Initial(), steps, t) && GivenOf(steps) <= given && !IsAtRisk(given)
    ensures NeverDrops(Initial(), steps) && Consistent(t) && Covered(t)
    ensures t.frames == map[] ==> forall o, inv :: o in t.stored && inv in t.stored && CallsFor(inv, o) ==>
              IsCascadeOf(Create(o, inv), t.stored)
  {
    hide Reaches, IsAtRisk, NeverDrops;
    RunNeverDrops(Initial(), steps, t, given);
    CascadesComplete(Initial(), steps, t);
  }

  // ----- what is lost is lost for good -----

  /** The undo that `inv` calls for is not stored, and no save in progress will ever see to it. */
  ghost predicate IsLost(s: State, o: Op, inv: Op) {
    && {o, inv} <= s.stored && CallsFor(inv, o) && !IsCascadeOf(Create(o, inv), s.stored)
    && forall id :: id in s.frames ==> NeverSeesTo(s.frames[id], o, inv)
  }

  ghost predicate NeverSeesTo(f: Frame, o: Op, inv: Op)
    requires IsInvalidation(inv)
  {
    !Responsible(f, o, inv) && !(f.Depending? && f.op in {o, inv})
  }

  lemma LostIsNotCovered(s: State, o: Op, inv: Op)
    requires IsLost(s, o, inv)
    ensures !Covered(s)
  {
    hide Precedes, Create;
    assert !Settled(s, o, inv);
  }

  lemma NewNeverSeesTo(f: Frame, stored: set<Op>, act: Act, g: Frame, o: Op, inv: Op)
    requires CanAct(f, stored, act) && IsNew(f, stored, act, g) && o in stored && inv in stored && CallsFor(inv, o)
    requires NeverSeesTo(f, o, inv)
    ensures NeverSeesTo(g, o, inv)
  {
    hide WellFormed, Precedes, Create;
  }

  /** Unless it is given from outside, what is lost is never stored. */
  lemma LostStaysLost(s: State, step: Step, o: Op, inv: Op)
    requires CanStep(s, step) && IsLost(s, o, inv) && (step.Start? ==> Create(o, inv) != Some(step.op))
    ensures IsLost(Next(s, step), o, inv)
  {
    hide WellFormed, Precedes, Create, CanAct, After, Called, NeverSeesTo;
    var t := Next(s, step);
    forall id | id in t.frames
      ensures NeverSeesTo(t.frames[id], o, inv)
    {
      StepEffect(s, step, id);
      if step.Continue? && IsNew(s.frames[step.id], s.stored, step.act, t.frames[id]) {
        NewNeverSeesTo(s.frames[step.id], s.stored, step.act, t.frames[id], o, inv);
      } else if step.Start? && id == step.id {
        EnteredNeverSeesTo(step.op, o, inv);
      }
    }
    if step.Continue? && step.act.Store? {
      StoredIsNotTheUndo(s.frames[step.id], s.stored, o, inv);
    }
  }

  lemma EnteredNeverSeesTo(op: Op, o: Op, inv: Op)
    requires IsInvalidation(inv) && Create(o, inv) != Some(op)
    ensures NeverSeesTo(Entered(op), o, inv)
  {
  }

  lemma StoredIsNotTheUndo(f: Frame, stored: set<Op>, o: Op, inv: Op)
    requires IsInvalidation(inv) && CanAct(f, stored, Store) && NeverSeesTo(f, o, inv)
    ensures Create(o, inv) != Some(f.op)
  {
    hide Create;
  }

  lemma {:induction false} LostForGood(s: State, steps: seq<Step>, t: State, o: Op, inv: Op)
    requires IsLost(s, o, inv) && Reaches(s, steps, t)
    requires forall x :: x in GivenOf(steps) ==> Create(o, inv) != Some(x)
    ensures IsLost(t, o, inv)
    decreases |steps|
  {
    hide IsLost, CanStep, Next, Create, CallsFor;
    if steps != [] {
      assert steps[0].Start? ==> steps[0].op in GivenOf(steps);
      assert GivenOf(steps[1..]) <= GivenOf(steps);
      LostStaysLost(s, steps[0], o, inv);
      LostForGood(Next(s, steps[0]), steps[1..], t, o, inv);
    }
  }

  // ----- how ops at risk come to that -----

  /** A run from the empty store that is given only these ops. */
  ghost predicate IsRun(steps: seq<Step>, s: State, given: set<Op>) {
    Reaches(Initial(), steps, s) && Consistent(s) && GivenOf(steps) <= given
  }

  /** Some ops, and what they rest on, have been stored since; their saves have looked nothing
      up yet, and no other save has gone on. */
  ghost predicate HasStored(s: State, t: State, ops: set<Op>) {
    && s.stored <= t.stored && (forall y :: y in t.stored - s.stored ==> exists x :: x in ops && RestsOn(x, y))
    && (forall k :: k in s.frames ==> k in t.frames && t.frames[k] == s.frames[k])
    && (forall k :: k in t.frames && k !in s.frames ==> IsFirstOf(t.frames[k], t.stored - s.stored))
  }

  ghost predicate IsFirstOf(f: Frame, ops: set<Op>) {
    f.Causes? && f.op in ops && f.todo == f.op.causal
  }

  lemma NothingStored(s: State, ops: set<Op>)
    ensures HasStored(s, s, ops)
  {
  }

  lemma StoresMore(s: State, t: State, u: State, some: set<Op>, others: set<Op>, all: set<Op>)
    requires HasStored(s, t, some) && HasStored(t, u, others)
    requires forall x, y :: x in some + others && RestsOn(x, y) ==> exists a :: a in all && RestsOn(a, y)
    ensures HasStored(s, u, all)
  {
    hide RestsOn;
    forall y | y in u.stored - s.stored
      ensures exists a :: a in all && RestsOn(a, y)
    {
      if y in t.stored {
        assert y in t.stored - s.stored;
        var x :| x in some && RestsOn(x, y);
        assert x in some + others;
      } else {
        assert y in u.stored - t.stored;
        var x :| x in others && RestsOn(x, y);
        assert x in some + others;
      }
    }
  }

  lemma RunGoesOn(steps: seq<Step>, s: State, given: set<Op>, step: Step)
    requires IsRun(steps, s, given) && CanStep(s, step) && (step.Start? ==> step.op in given)
    ensures IsRun(steps + [step], Next(s, step), given)
  {
    hide Reaches, Consistent, CanStep, Next;
    StepKeepsConsistent(s, step);
    RunContinues(Initial(), steps, s, step);
    assert forall x :: x in steps + [step] ==> x in steps || x == step;
  }

  /** Saves an op up to where it is stored. */
  lemma StoreIt(steps: seq<Step>, s: State, given: set<Op>, x: Op) returns (more: seq<Step>, t: State, id: nat)
    requires IsRun(steps, s, given) && x in given && WellFormed(x) && x !in s.stored && Below(x) <= s.stored
    ensures IsRun(more, t, given) && id !in s.frames
    ensures t == State(s.stored + {x}, s.frames[id := Causes(x, x.causal)])
  {
    hide IsRun, WellFormed, Deps;
    id := Unused(s.frames.Keys);
    var child := id + 1;
    var first, second, third := Start(id, x), Continue(id, Check, child), Continue(id, Store, child);
    RunGoesOn(steps, s, given, first);
    var u := Next(s, first);
    RunGoesOn(steps + [first], u, given, second);
    var v := Next(u, second);
    assert v.frames == s.frames[id := Depending(x)];
    RunGoesOn(steps + [first] + [second], v, given, third);
    t := Next(v, third);
    more := steps + [first] + [second] + [third];
    assert t.frames == s.frames[id := Causes(x, x.causal)];
  }

  /** Saves an op after all that it rests on. */
  lemma {:induction false} StoreWhole(steps: seq<Step>, s: State, given: set<Op>, x: Op)
    returns (more: seq<Step>, t: State)
    requires IsRun(steps, s, given) && IsClosed(given) && x in given
    ensures IsRun(more, t, given) && x in t.stored && HasStored(s, t, {x})
    decreases x
  {
    hide IsRun, WellFormed, HasStored, RestsOn, Below;
    if x in s.stored {
      more, t := steps, s;
      NothingStored(s, {x});
    } else {
      var u, id;
      more, u := StoreEach(steps, s, given, Below(x), x);
      WholeStored(s, u, x);
      if x in u.stored {
        t := u;
      } else {
        more, t, id := StoreIt(more, u, given, x);
        OneMoreStored(s, u, t, x, id);
      }
    }
  }

  lemma {:induction false} StoreEach(steps: seq<Step>, s: State, given: set<Op>, ops: set<Op>, bound: Op)
    returns (more: seq<Step>, t: State)
    requires IsRun(steps, s, given) && IsClosed(given) && ops <= given && forall d :: d in ops ==> d < bound
    ensures IsRun(more, t, given) && ops <= t.stored && HasStored(s, t, ops)
    decreases bound, ops
  {
    hide IsRun, WellFormed, RestsOn, IsClosed, HasStored;
    if ops == {} {
      more, t := steps, s;
      NothingStored(s, {});
    } else {
      var d :| d in ops;
      var u;
      more, u := StoreWhole(steps, s, given, d);
      more, t := StoreEach(more, u, given, ops - {d}, bound);
      EachStored(s, u, t, d, ops);
    }
  }

  lemma EachStored(s: State, u: State, t: State, d: Op, ops: set<Op>)
    requires d in ops && HasStored(s, u, {d}) && HasStored(u, t, ops - {d}) && d in u.stored && ops - {d} <= t.stored
    ensures HasStored(s, t, ops) && ops <= t.stored
  {
    hide RestsOn;
    assert {d} + (ops - {d}) == ops;
    StoresMore(s, u, t, {d}, ops - {d}, ops);
  }

  lemma WholeStored(s: State, u: State, x: Op)
    requires HasStored(s, u, Below(x))
    ensures HasStored(s, u, {x})
  {
    hide Below;
    assert x in {x};
  }

  lemma OneMoreStored(s: State, u: State, t: State, x: Op, id: nat)
    requires HasStored(s, u, {x}) && x !in u.stored && id !in u.frames
    requires t == State(u.stored + {x}, u.frames[id := Causes(x, x.causal)])
    ensures HasStored(s, t, {x})
  {
    assert RestsOn(x, x);
    forall y | y in t.stored - s.stored
      ensures exists a :: a in {x} && RestsOn(a, y)
    {
      assert y == x || y in u.stored - s.stored;
      assert x in {x};
    }
  }

  /** Nothing sees to the undo but perhaps some saves. */
  ghost predicate IsApart(s: State, o: Op, inv: Op, but: set<nat>) {
    && CallsFor(inv, o) && o != inv && !IsCascadeOf(Create(o, inv), s.stored)
    && forall k :: k in s.frames && k !in but ==> NeverSeesTo(s.frames[k], o, inv)
  }

  lemma StoringStaysApart(s: State, t: State, ops: set<Op>, o: Op, inv: Op, but: set<nat>)
    requires IsApart(s, o, inv, but) && HasStored(s, t, ops) && Create(o, inv).Some?
    requires forall y :: y in t.stored - s.stored ==> y != o && y != inv && y != Create(o, inv).value
    ensures IsApart(t, o, inv, but)
  {
    hide RestsOn, Create, Precedes;
    assert Create(o, inv).value !in t.stored - s.stored;
  }

  /** A save goes on by an action that stores nothing. */
  lemma GoOn(steps: seq<Step>, s: State, given: set<Op>, id: nat, act: Act) returns (more: seq<Step>, t: State)
    requires IsRun(steps, s, given) && id in s.frames && CanAct(s.frames[id], s.stored, act) && !act.Store?
    ensures IsRun(more, t, given) && t.stored == s.stored
    ensures After(s.frames[id], s.stored, act).Some? ==>
              id in t.frames && t.frames[id] == After(s.frames[id], s.stored, act).value
    ensures After(s.frames[id], s.stored, act).None? && Called(s.frames[id], s.stored, act).None? ==> id !in t.frames
    ensures forall k :: k in t.frames && k != id ==>
              (k in s.frames && t.frames[k] == s.frames[k]) ||
              Enter(Called(s.frames[id], s.stored, act)) == Some(t.frames[k])
  {
    hide IsRun, CanAct, After, Called;
    var child := Unused(s.frames.Keys);
    RunGoesOn(steps, s, given, Continue(id, act, child));
    more, t := steps + [Continue(id, act, child)], Next(s, Continue(id, act, child));
  }

  /** The save of the invalidation calls only for undos of the invalidation itself. */
  lemma LookingUpStaysApart(s: State, t: State, id: nat, act: Act, o: Op, inv: Op)
    requires IsApart(s, o, inv, {id}) && id in s.frames && s.frames[id].op == inv && t.stored == s.stored
    requires CanAct(s.frames[id], s.stored, act) && (act.Cascade? || Called(s.frames[id], s.stored, act).None?)
    requires forall k :: k in t.frames && k != id ==>
               (k in s.frames && t.frames[k] == s.frames[k]) ||
               Enter(Called(s.frames[id], s.stored, act)) == Some(t.frames[k])
    ensures IsApart(t, o, inv, {id})
  {
    hide Precedes, Create;
    forall k | k in t.frames && k != id
      ensures NeverSeesTo(t.frames[k], o, inv)
    {
      if !(k in s.frames && t.frames[k] == s.frames[k]) {
        EnteredNeverSeesTo(t.frames[k].op, o, inv);
      }
    }
  }

  lemma {:induction false} LookUpRest(steps: seq<Step>, s: State, given: set<Op>, id: nat, o: Op, inv: Op)
    returns (more: seq<Step>, t: State)
    requires IsRun(steps, s, given) && IsApart(s, o, inv, {id}) && id in s.frames && s.frames[id].op == inv
    requires s.frames[id].Causes? || s.frames[id].Cascading?
    ensures IsRun(more, t, given) && IsApart(t, o, inv, {id}) && t.stored == s.stored
    ensures id in t.frames && t.frames[id] == Causes(inv, {})
    decreases s.frames[id].todo, s.frames[id].Cascading?, if s.frames[id].Cascading? then s.frames[id].invs else {}
  {
    hide IsRun, IsApart, Create, Precedes, WellFormed;
    if s.frames[id] == Causes(inv, {}) {
      more, t := steps, s;
    } else {
      var act: Act;
      if s.frames[id].Causes? {
        var c :| c in s.frames[id].todo;
        act := LookUp(c);
      } else if s.frames[id].invs == {} {
        act := NextCause;
      } else {
        var i :| i in s.frames[id].invs;
        FoundCanBeCascaded(steps, s, given, id, i);
        act := Act.Cascade(i);
      }
      var u;
      more, u := GoOn(steps, s, given, id, act);
      LookingUpStaysApart(s, u, id, act, o, inv);
      more, t := LookUpRest(more, u, given, id, o, inv);
    }
  }

  lemma FoundCanBeCascaded(steps: seq<Step>, s: State, given: set<Op>, id: nat, i: Op)
    requires IsRun(steps, s, given) && id in s.frames && s.frames[id].Cascading? && i in s.frames[id].invs
    ensures IsInvalidation(i) && Create(s.frames[id].op, i).Some?
  {
    CascadeIsCreated(s, id, i);
  }

  // ----- the run -----

  lemma EmptyRun(given: set<Op>)
    ensures IsRun([], Initial(), given)
  {
  }

  lemma MemberOfClosed(given: set<Op>, x: Op)
    requires IsClosed(given) && x in given
    ensures WellFormed(x) && Below(x) <= given
  {
  }

  /** First the own dependent is stored and has looked up the target: there is no invalidation yet. */
  lemma StoreOwnDependent(given: set<Op>, o: Op, inv: Op) returns (steps: seq<Step>, s: State)
    requires IsClosed(given) && o in given && CallsFor(inv, o) && !RestsOn(o, inv) && Create(o, inv).Some?
    ensures IsRun(steps, s, given) && o in s.stored && inv !in s.stored
    ensures IsApart(s, o, inv, {})
  {
    hide IsRun, IsClosed, RestsOn, Create, Precedes, HasStored, WellFormed, Below, IsApart;
    var io;
    EmptyRun(given);
    assert WellFormed(o) && Below(o) <= given by { MemberOfClosed(given, o); }
    steps, s := StoreEach([], Initial(), given, Below(o), o);
    var early := s;
    RestIsBelow(early, o, inv);
    steps, s, io := StoreIt(steps, s, given, o);
    StoredAlone(early, s, io, o, inv);
    var before := s;
    steps, s := GoOn(steps, s, given, io, LookUp(Target(inv)));
    LookedUpInVain(before, s, io, o, inv);
  }

  /** What an op rests on is neither the op, nor its undo, nor something that it does not rest on. */
  lemma RestIsBelow(s: State, o: Op, inv: Op)
    requires HasStored(Initial(), s, Below(o)) && IsInvalidation(inv) && !RestsOn(o, inv) && Create(o, inv).Some?
    ensures o !in s.stored && inv !in s.stored && Create(o, inv).value !in s.stored && o != inv
    ensures forall k :: k in s.frames ==> s.frames[k].Causes? && s.frames[k].op in s.stored
  {
    hide Create, Deps, WellFormed;
    assert s.stored - Initial().stored == s.stored;
    forall y | y in s.stored
      ensures y < o && RestsOn(o, y)
    {
      assert y in s.stored - Initial().stored;
      var d :| d in Below(o) && RestsOn(d, y);
      RestIsSmaller(d, y);
    }
    assert o in Create(o, inv).value.prevs by { CreatedRestsOn(o, inv); }
  }

  lemma CreatedRestsOn(o: Op, inv: Op)
    requires IsInvalidation(inv) && Create(o, inv).Some?
    ensures var casc := Create(o, inv).value; o in casc.prevs && inv in casc.causal && o < casc && inv < casc
  {
  }

  lemma StoredAlone(s: State, t: State, io: nat, o: Op, inv: Op)
    requires CallsFor(inv, o) && Create(o, inv).Some? && o != inv
    requires inv !in s.stored && o !in s.stored && Create(o, inv).value !in s.stored
    requires forall k :: k in s.frames ==> s.frames[k].Causes? && s.frames[k].op in s.stored
    requires t == State(s.stored + {o}, s.frames[io := Causes(o, o.causal)])
    ensures IsApart(t, o, inv, {io})
  {
    hide Create, Precedes;
    assert Create(o, inv).value != o by { CreatedRestsOn(o, inv); }
  }

  lemma LookedUpInVain(s: State, t: State, io: nat, o: Op, inv: Op)
    requires IsApart(s, o, inv, {io}) && io in t.frames && inv !in s.stored && t.stored == s.stored
    requires t.frames[io] == Cascading(o, o.causal - {Target(inv)}, InvalidationsOf(s.stored, Target(inv), o))
    requires forall k :: k in t.frames && k != io ==> k in s.frames && t.frames[k] == s.frames[k]
    ensures IsApart(t, o, inv, {})
  {
    hide Create, Precedes;
  }

  /** Then the invalidation is stored, and the foreign dependent, while the invalidation waits. */
  lemma StoreInvalidation(given: set<Op>, start: seq<Step>, first: State, o: Op, inv: Op, other: Op)
    returns (steps: seq<Step>, s: State, id: nat)
    requires IsRun(start, first, given) && IsClosed(given) && {o, inv, other} <= given && IsThreat(inv, other, o)
    requires o in first.stored && inv !in first.stored && IsApart(first, o, inv, {})
    ensures IsRun(steps, s, given) && {o, inv, other} <= s.stored && IsApart(s, o, inv, {id})
    ensures id in s.frames && s.frames[id] == Causes(inv, inv.causal)
  {
    hide IsRun, IsClosed, RestsOn, Create, Precedes, HasStored, WellFormed, Below, IsApart, CallsFor;
    var casc := Create(o, inv).value;
    CreatedRestsOn(o, inv);
    MemberOfClosed(given, inv);
    steps, s := StoreEach(start, first, given, Below(inv), inv);
    var early := s;
    SmallerAreStored(first, early, inv);
    StoringStaysApart(first, early, Below(inv), o, inv, {});
    steps, s, id := StoreIt(steps, s, given, inv);
    var mid := s;
    StoredInvalidation(early, mid, id, o, inv);
    steps, s := StoreWhole(steps, s, given, other);
    RestIsStoredOnly(mid, s, other, casc);
    StoringStaysApart(mid, s, {other}, o, inv, {id});
    StoredKeepsFrame(mid, s, {other}, id);
  }

  lemma SmallerAreStored(s: State, t: State, x: Op)
    requires HasStored(s, t, Below(x))
    ensures forall y :: y in t.stored - s.stored ==> y < x
    ensures s.stored <= t.stored && (x !in s.stored ==> x !in t.stored)
  {
    hide Below;
    forall y | y in t.stored - s.stored
      ensures y < x
    {
      var d :| d in Below(x) && RestsOn(d, y);
      RestIsSmaller(d, y);
    }
    assert x !in t.stored - s.stored;
  }

  lemma RestIsStoredOnly(s: State, t: State, x: Op, y: Op)
    requires HasStored(s, t, {x}) && !RestsOn(x, y)
    ensures y !in t.stored - s.stored && s.stored <= t.stored
  {
    hide RestsOn;
  }

  lemma StoredKeepsFrame(s: State, t: State, ops: set<Op>, id: nat)
    requires HasStored(s, t, ops) && id in s.frames
    ensures id in t.frames && t.frames[id] == s.frames[id]
  {
    hide RestsOn;
  }

  lemma StoredInvalidation(s: State, t: State, id: nat, o: Op, inv: Op)
    requires IsApart(s, o, inv, {}) && Create(o, inv).Some? && Create(o, inv).value != inv
    requires t == State(s.stored + {inv}, s.frames[id := Causes(inv, inv.causal)])
    ensures IsApart(t, o, inv, {id})
  {
    hide Create, Precedes;
  }

  /** At last the invalidation loads its consequences, and throws on the foreign one. */
  lemma ThrowOnForeign(start: seq<Step>, first: State, given: set<Op>, id: nat, o: Op, inv: Op, other: Op)
    returns (steps: seq<Step>, t: State)
    requires IsRun(start, first, given) && IsThreat(inv, other, o) && {o, inv, other} <= first.stored
    requires IsApart(first, o, inv, {id}) && id in first.frames && first.frames[id] == Causes(inv, inv.causal)
    ensures IsRun(steps, t, given) && IsLost(t, o, inv)
  {
    hide IsRun, RestsOn, Create, Precedes, WellFormed, IsApart, NeverSeesTo;
    var s;
    steps, s := LookUpRest(start, first, given, id, o, inv);
    var u;
    steps, u := GoOn(steps, s, given, id, FinishCauses);
    LookingUpStaysApart(s, u, id, FinishCauses, o, inv);
    steps, s := GoOn(steps, u, given, id, LoadConsequences);
    LookingUpStaysApart(u, s, id, LoadConsequences, o, inv);
    ForeignIsConsequence(steps, s, given, inv, other);
    assert {o, other} <= ConsequencesOf(s.stored, inv);
    steps, t := GoOn(steps, s, given, id, Undo(other));
    LookingUpStaysApart(s, t, id, Undo(other), o, inv);
    LostApart(t, o, inv, id);
  }

  lemma ForeignIsConsequence(steps: seq<Step>, s: State, given: set<Op>, inv: Op, other: Op)
    requires IsRun(steps, s, given) && {inv, other} <= s.stored && inv.kind.InvalidateAfter?
    requires Target(inv) in other.causal && other.targetObject != inv.targetObject
    ensures IsConsequence(other, inv) && Create(other, inv).None?
  {
    hide WellFormed, Create, Reaches;
    StoredIsClosed(s);
    CreateSucceeds(other, inv);
    if Precedes(other, inv) {
      PrecedesOnOneObject(s.stored, other, inv);
    }
  }

  lemma LostApart(t: State, o: Op, inv: Op, id: nat)
    requires IsApart(t, o, inv, {id}) && id !in t.frames && {o, inv} <= t.stored
    ensures IsLost(t, o, inv)
  {
    hide Create, Precedes, NeverSeesTo;
  }

  lemma SomethingIsLost(given: set<Op>) returns (steps: seq<Step>, t: State, o: Op, inv: Op)
    requires IsClosed(given) && IsAtRisk(given)
    ensures IsRun(steps, t, given) && IsLost(t, o, inv)
  {
    hide IsRun, IsClosed, IsThreat, IsLost, IsApart;
    var other;
    inv, other, o :| inv in given && other in given && o in given && IsThreat(inv, other, o);
    ThreatMeans(inv, other, o);
    var id;
    steps, t := StoreOwnDependent(given, o, inv);
    steps, t, id := StoreInvalidation(given, steps, t, o, inv, other);
    steps, t := ThrowOnForeign(steps, t, given, id, o, inv, other);
  }

  lemma ThreatMeans(inv: Op, other: Op, o: Op)
    requires IsThreat(inv, other, o)
    ensures CallsFor(inv, o) && !RestsOn(o, inv) && Create(o, inv).Some?
  {
  }

  /** Whether an undo can be lost is known before any op is saved: over ops that can all be
      saved, some run of saves comes to lose one if and only if the ops are at risk. */
  lemma LossExactlyWhen(given: set<Op>)
    requires IsClosed(given)
    ensures IsAtRisk(given) <==> exists steps, t, o, inv :: IsRun(steps, t, given) && IsLost(t, o, inv)
  {
    hide IsClosed, IsAtRisk, IsLost;
    if IsAtRisk(given) {
      var steps, t, o, inv := SomethingIsLost(given);
    } else {
      forall steps, t, o, inv | IsRun(steps, t, given)
        ensures !IsLost(t, o, inv)
      {
        NothingIsLost(given, steps, t);
        if IsLost(t, o, inv) {
          LostIsNotCovered(t, o, inv);
        }
      }
    }
  }
}
