/** Mutation ops, and the undo and redo ops that invalidations cascade into. As with
    forkable ops, an op is represented together with everything its hash covers. */
module CausalOps {
  import opened Hashing

  datatype Kind =
    | Add(element: Hash)
    | DeleteAdds(element: Hash, deleted: set<Op>)
    | InvalidateAfter(invalidated: Op)
    | Cascade(undo: bool, target: Op)
    | Other

  /** `prevs` are the ops applied right before this one, `causal` the ops it rests on. */
  datatype Op = Op(nonce: nat, targetObject: Hash, kind: Kind, prevs: set<Op>, causal: set<Op>)

  predicate IsCascade(op: Op) {
    op.kind.Cascade?
  }

  ghost predicate IsUndo(op: Op) {
    op.kind.Cascade? && op.kind.undo
  }

  /** A redo of `u`: a cascaded op that targets it and undoes the undo. */
  ghost predicate IsRedoOf(op: Op, u: Op) {
    op.kind.Cascade? && !op.kind.undo && op.kind.target == u
  }

  predicate IsInvalidation(op: Op) {
    op.kind.InvalidateAfter? || op.kind.Cascade?
  }

  /** The op an invalidation is aimed at. */
  function Target(op: Op): Op
    requires IsInvalidation(op)
  {
    if op.kind.Cascade? then op.kind.target else op.kind.invalidated
  }

  /** The op at the end of a chain of undos and redos. */
  ghost function FinalTarget(op: Op): (f: Op)
    requires IsCascade(op)
    ensures !IsCascade(f) && f < op
    decreases op
  {
    if IsCascade(op.kind.target) then FinalTarget(op.kind.target) else op.kind.target
  }

  /** Undos and redos from `op` on, each of them aimed at the next, down to a plain op `f`. */
  ghost predicate IsChain(chain: seq<Op>, op: Op, f: Op) {
    && |chain| > 1 && chain[0] == op && chain[|chain| - 1] == f && !f.kind.Cascade?
    && forall i :: 0 <= i < |chain| - 1 ==> chain[i].kind.Cascade? && chain[i].kind.target == chain[i + 1]
  }

  /** A chain of undos and redos goes from `op` down to `f`. */
  ghost predicate LeadsTo(op: Op, f: Op) {
    exists chain :: IsChain(chain, op, f)
  }

  /** The final target is where the chain ends, and nothing else is. */
  lemma {:induction false} FinalTargetEndsChain(op: Op, f: Op)
    requires op.kind.Cascade?
    ensures f == FinalTarget(op) <==> LeadsTo(op, f)
    decreases op
  {
    var next := op.kind.target;
    if next.kind.Cascade? {
      FinalTargetEndsChain(next, f);
      if rest :| IsChain(rest, next, f) {
        assert IsChain([op] + rest, op, f);
      }
      if chain :| IsChain(chain, op, f) {
        assert chain[1] == next;
        assert IsChain(chain[1..], next, f);
      }
    } else {
      assert IsChain([op, next], op, next);
      if chain :| IsChain(chain, op, f) {
        assert chain[1] == next;
      }
    }
  }

  /** Walks down the chain of undos and redos to the plain op at its end. */
  method GetFinalTargetOp(op: Op) returns (f: Op)
    requires IsCascade(op)
    ensures LeadsTo(op, f) && f == FinalTarget(op)
  {
    f := op.kind.target;
    ghost var path := [op, f];
    while IsCascade(f)
      invariant |path| > 1 && path[0] == op && path[|path| - 1] == f
      invariant forall i :: 0 <= i < |path| - 1 ==> path[i].kind.Cascade? && path[i].kind.target == path[i + 1]
      decreases f
    {
      f := f.kind.target;
      path := path + [f];
    }
    assert IsChain(path, op, f);
    FinalTargetEndsChain(op, f);
  }

  /** The rules a cascaded op has to obey: its cause is aimed at an op that its target rests
      on, the first one in a chain is an undo and then undos and redos alternate, and an
      InvalidateAfterOp causes only undos of plain ops of its own object. */
  predicate CascadeRules(op: Op)
    requires IsCascade(op)
  {
    && op.targetObject == op.kind.target.targetObject
    && op.prevs == {op.kind.target}
    && (if IsCascade(op.kind.target) then op.kind.undo == !op.kind.target.kind.undo else op.kind.undo)
    && |op.causal| == 1
    && forall cause :: cause in op.causal ==>
         && IsInvalidation(cause)
         && Target(cause) in op.kind.target.causal
         && (cause.kind.InvalidateAfter? ==>
               op.kind.undo && !IsCascade(op.kind.target) && cause.targetObject == op.targetObject)
  }

  /** An InvalidateAfterOp is aimed at a plain op of its own object. */
  predicate InvalidationRules(op: Op)
    requires op.kind.InvalidateAfter?
  {
    !IsInvalidation(op.kind.invalidated) && op.kind.invalidated.targetObject == op.targetObject
  }

  predicate WellFormed(op: Op) {
    && (forall p :: p in op.prevs ==> p.targetObject == op.targetObject)
    && (IsCascade(op) ==> CascadeRules(op))
    && (op.kind.InvalidateAfter? ==> InvalidationRules(op))
  }

  /** Undos and redos alternate: down a chain of well-formed ops, those at an odd distance
      from the plain op undo, and the others redo. */
  lemma {:induction false} UndosAlternate(chain: seq<Op>, op: Op, f: Op)
    requires IsChain(chain, op, f) && forall i :: 0 <= i < |chain| ==> WellFormed(chain[i])
    ensures op.kind.undo <==> |chain| % 2 == 0
    decreases |chain|
  {
    assert chain[0] == op && chain[1] == op.kind.target;
    if |chain| > 2 {
      UndosAlternate(chain[1..], chain[1], f);
    }
  }

  /** Builds the undo or redo of `target` that `cause` calls for; `None` when the source's
      constructor throws. */
  function Create(target: Op, cause: Op): (r: Option<Op>)
    requires IsInvalidation(cause)
    ensures r.Some? ==> IsCascade(r.value) && CascadeRules(r.value)
    ensures r.Some? ==>
              && r.value.kind == Cascade(!(target.kind.Cascade? && target.kind.undo), target)
              && r.value.prevs == {target} && r.value.causal == {cause} && r.value.targetObject == target.targetObject
    ensures r.None? <==>
            || (cause.kind.Cascade? && cause.kind.target !in target.causal)
            || (cause.kind.InvalidateAfter? &&
                (|| cause.kind.invalidated !in target.causal || target.kind.Cascade?
                 || cause.targetObject != target.targetObject))
  {
    var undo := if IsCascade(target) then !target.kind.undo else true;
    if Target(cause) !in target.causal then None
    else if cause.kind.InvalidateAfter? &&
            (!undo || cause.targetObject != target.targetObject || IsCascade(target)) then None
    else Some(Op(0, target.targetObject, Cascade(undo, target), {target}, {cause}))
  }

  /** Validation lets pass exactly the undos and redos that can be built. */
  lemma PassesExactlyIfCreated(op: Op)
    requires op.kind.Cascade?
    ensures CascadeRules(op) <==>
            exists cause :: IsInvalidation(cause) && op.causal == {cause} &&
                            Create(op.kind.target, cause) == Some(op.(nonce := 0))
  {
    if CascadeRules(op) {
      OnlyOne(op.causal);
      var cause :| cause in op.causal;
      assert Create(op.kind.target, cause) == Some(op.(nonce := 0));
    }
  }

  lemma OnlyOne(s: set<Op>)
    requires |s| == 1
    ensures s != {} && forall x :: x in s ==> s == {x}
  {
    forall x | x in s
      ensures s == {x}
    {
      assert |s - {x}| == 0;
    }
  }

  // ----- what a set of applied ops means -----

  ghost predicate PrevsApplied(s: set<Op>) {
    forall o, p :: o in s && p in o.prevs ==> p in s
  }

  ghost predicate AllWellFormed(s: set<Op>) {
    forall o :: o in s ==> WellFormed(o)
  }

  ghost predicate IsTerminalIn(o: Op, s: set<Op>) {
    o in s && forall n :: n in s ==> o !in n.prevs
  }

  /** `p` is in the causal past of `op`. */
  predicate Precedes(p: Op, op: Op)
    decreases op
  {
    p in op.prevs || exists q :: q in op.prevs && Precedes(p, q)
  }

  lemma {:induction false} PrecedesIsSmaller(p: Op, op: Op)
    requires Precedes(p, op)
    ensures p < op
    decreases op
  {
    if p !in op.prevs {
      var q :| q in op.prevs && Precedes(p, q);
      PrecedesIsSmaller(p, q);
    }
  }

  /** The causal past is closed under predecessors. */
  lemma {:induction false} PrevPrecedes(p: Op, q: Op, op: Op)
    requires p in q.prevs && (q == op || Precedes(q, op))
    ensures Precedes(p, op)
    decreases op
  {
    if q != op && q !in op.prevs {
      var r :| r in op.prevs && Precedes(q, r);
      PrevPrecedes(p, q, r);
    } else if q != op {
      assert Precedes(p, q);
    }
  }

  /** Each op of the path directly follows the next one. */
  ghost predicate IsPrevPath(path: seq<Op>, op: Op, p: Op) {
    && |path| > 1 && path[0] == op && path[|path| - 1] == p
    && forall i :: 0 <= i < |path| - 1 ==> path[i + 1] in path[i].prevs
  }

  /** The causal past is what paths of predecessors lead to. */
  lemma {:induction false} PrecedesMeansPath(p: Op, op: Op)
    ensures Precedes(p, op) <==> exists path :: IsPrevPath(path, op, p)
    decreases op
  {
    forall q | q in op.prevs
      ensures Precedes(p, q) <==> exists path :: IsPrevPath(path, q, p)
    {
      PrecedesMeansPath(p, q);
    }
    if p in op.prevs {
      assert IsPrevPath([op, p], op, p);
    } else if Precedes(p, op) {
      var q :| q in op.prevs && Precedes(p, q);
      var rest :| IsPrevPath(rest, q, p);
      assert IsPrevPath([op] + rest, op, p);
    } else if path: seq<Op> :| IsPrevPath(path, op, p) {
      assert path[1] in path[0].prevs;
      assert |path| > 2;
      assert IsPrevPath(path[1..], path[1], p);
    }
  }

  /** The ops of a list. */
  ghost function SetOf(s: seq<Op>): (r: set<Op>)
    ensures forall x :: x in r <==> x in s
  {
    set x | x in s
  }

  /** No op before its predecessors, and none twice. */
  ghost predicate InCausalOrder(log: seq<Op>) {
    && (forall i, j :: 0 <= i < j < |log| ==> log[i] != log[j])
    && (forall i, p :: 0 <= i < |log| && p in log[i].prevs ==> p in log[..i])
  }

  lemma OneMoreInOrder(log: seq<Op>, op: Op)
    requires InCausalOrder(log) && op !in log && forall p :: p in op.prevs ==> p in log
    ensures InCausalOrder(log + [op]) && SetOf(log + [op]) == SetOf(log) + {op}
  {
    var longer := log + [op];
    forall i, p | 0 <= i < |longer| && p in longer[i].prevs
      ensures p in longer[..i]
    {
      assert longer[..i] == log[..i];
    }
  }

  /** `u` is an applied undo at the end of a chain: none of the applied redos targets it. */
  ghost predicate IsActiveIn(f: Op, u: Op, s: set<Op>) {
    u in s && IsUndo(u) && FinalTarget(u) == f && forall r :: r in s ==> !IsRedoOf(r, u)
  }

  /** An op is valid when every applied undo of it, direct or through a chain, has been
      redone. */
  ghost predicate IsValidIn(o: Op, s: set<Op>) {
    forall u :: u in s && IsUndo(u) && FinalTarget(u) == o ==> exists r :: r in s && IsRedoOf(r, u)
  }

  /** The final target of an applied cascaded op has been applied. */
  lemma {:induction false} FinalTargetApplied(s: set<Op>, u: Op)
    requires PrevsApplied(s) && AllWellFormed(s) && u in s && IsCascade(u)
    ensures FinalTarget(u) in s
    decreases u
  {
    assert u.kind.target in u.prevs;
    if IsCascade(u.kind.target) {
      FinalTargetApplied(s, u.kind.target);
    }
  }

  /** What arrives next, after its predecessors, has no undos or redos yet. */
  lemma NewOpIsUntouched(s: set<Op>, op: Op)
    requires PrevsApplied(s) && AllWellFormed(s) && op !in s
    ensures forall u :: u in s && IsCascade(u) ==> FinalTarget(u) != op && u.kind.target != op
    ensures forall n :: n in s ==> op !in n.prevs
  {
    forall u | u in s && IsCascade(u)
      ensures FinalTarget(u) != op && u.kind.target != op
    {
      FinalTargetApplied(s, u);
      assert u.kind.target in u.prevs;
    }
  }

  /** A new op changes what is active only if it is a cascaded op, and then only for its
      final target: an undo becomes active, a redo deactivates its target. */
  lemma ActiveAfter(s: set<Op>, op: Op, f: Op, u: Op)
    requires PrevsApplied(s) && AllWellFormed(s) && op !in s && WellFormed(op)
    ensures IsActiveIn(f, u, s + {op}) <==>
            (IsActiveIn(f, u, s) && !IsRedoOf(op, u)) || (u == op && IsUndo(op) && f == FinalTarget(op))
  {
  }

  lemma ValidMeansNoneActive(o: Op, s: set<Op>)
    ensures IsValidIn(o, s) <==> forall u :: !IsActiveIn(o, u, s)
  {
    if !IsValidIn(o, s) {
      var u :| u in s && IsUndo(u) && FinalTarget(u) == o && !exists r :: r in s && IsRedoOf(r, u);
      assert IsActiveIn(o, u, s);
    }
  }
}
