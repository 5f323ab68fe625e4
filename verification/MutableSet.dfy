/** An observed-remove set: a deletion removes the additions it names, and no others. */
module MutableSets {
  import opened Hashing
  import opened CausalOps

  ghost predicate IsDeleteOf(d: Op, a: Op) {
    d.kind.DeleteAdds? && a in d.kind.deleted
  }

  /** What validation accepts: a deletion names additions of its own element. */
  ghost predicate IsSetOp(op: Op) {
    match op.kind
    case Add(_) => true
    case DeleteAdds(e, deleted) => deleted != {} && forall a :: a in deleted ==> a.kind == Add(e)
    case _ => false
  }

  /** An addition is live after the ops of `log` if no deletion came after it. */
  ghost predicate IsLive(a: Op, log: seq<Op>) {
    a in log && a.kind.Add? && forall j :: 0 <= j < |log| && IsDeleteOf(log[j], a) ==> a !in log[..j]
  }

  ghost predicate HasElement(e: Hash, log: seq<Op>) {
    exists a :: IsLive(a, log) && a.kind == Add(e)
  }

  lemma LiveAfter(log: seq<Op>, op: Op, a: Op)
    requires op !in log
    ensures IsLive(a, log + [op]) <==> (a == op && a.kind.Add?) || (IsLive(a, log) && !IsDeleteOf(op, a))
  {
    var longer := log + [op];
    assert forall j :: 0 <= j < |log| ==> longer[..j] == log[..j];
    assert longer[..|log|] == log;
    if IsLive(a, log) && !IsDeleteOf(op, a) {
      assert forall j :: 0 <= j < |longer| && IsDeleteOf(longer[j], a) ==> a !in longer[..j];
    }
    if IsLive(a, longer) && a != op {
      assert forall j :: 0 <= j < |log| && IsDeleteOf(log[j], a) ==> IsDeleteOf(longer[j], a);
    }
    if a == op && a.kind.Add? {
      assert forall j :: 0 <= j < |longer| ==> a !in longer[..j];
    }
  }

  /** The references kept for each element are its live additions; none is kept for an
      element without any. */
  ghost predicate RefsAre(refs: map<Hash, set<Op>>, log: seq<Op>) {
    && (forall e, a :: e in refs && a in refs[e] <==> a.kind == Add(e) && IsLive(a, log))
    && (forall e :: e in refs ==> refs[e] != {})
  }

  ghost function Without(refs: map<Hash, set<Op>>, e: Hash, deleted: set<Op>): map<Hash, set<Op>> {
    if e !in refs then refs
    else if refs[e] - deleted == {} then refs - {e}
    else refs[e := refs[e] - deleted]
  }

  lemma RefsAfterDelete(refs: map<Hash, set<Op>>, op: Op, log: seq<Op>)
    requires RefsAre(refs, log) && op.kind.DeleteAdds? && IsSetOp(op) && op !in log
    ensures RefsAre(Without(refs, op.kind.element, op.kind.deleted), log + [op])
  {
    hide IsLive;
    var after := Without(refs, op.kind.element, op.kind.deleted);
    forall e: Hash, a: Op
      ensures e in after && a in after[e] <==> a.kind == Add(e) && IsLive(a, log + [op])
    {
      LiveAfter(log, op, a);
      assert e in refs && a in refs[e] <==> a.kind == Add(e) && IsLive(a, log);
      assert a in op.kind.deleted ==> a.kind == Add(op.kind.element);
      if e == op.kind.element {
        assert e in after && a in after[e] <==> e in refs && a in refs[e] - op.kind.deleted;
      } else {
        assert e in after <==> e in refs;
        assert e in after ==> after[e] == refs[e];
        assert IsLive(a, log + [op]) && a.kind == Add(e) <==> IsLive(a, log) && a.kind == Add(e);
      }
    }
  }

  class MutableSet {
    ghost var log: seq<Op>
    var allAppliedOps: set<Op>
    var terminalOps: set<Op>
    var elements: set<Hash>
    var currentAddOpRefs: map<Hash, set<Op>>

    ghost predicate RefsFor(log: seq<Op>)
      reads `currentAddOpRefs
    {
      RefsAre(currentAddOpRefs, log)
    }

    ghost predicate Valid()
      reads this
    {
      && InCausalOrder(log) && SetOf(log) == allAppliedOps
      && (forall o :: o in terminalOps <==> IsTerminalIn(o, allAppliedOps))
      && (forall o :: o in log ==> IsSetOp(o))
      && RefsFor(log) && elements == currentAddOpRefs.Keys
    }

    constructor ()
      ensures Valid() && log == []
    {
      log, allAppliedOps, terminalOps, elements, currentAddOpRefs := [], {}, {}, {}, map[];
    }

    lemma MembersHaveAdds(e: Hash, log: seq<Op>)
      requires RefsFor(log)
      ensures e in currentAddOpRefs <==> HasElement(e, log)
    {
      hide IsLive;
      if e in currentAddOpRefs {
        var a :| a in currentAddOpRefs[e];
        assert IsLive(a, log) && a.kind == Add(e);
      }
    }

    method MutateAdd(op: Op, ghost before: seq<Op>) returns (mutated: bool)
      requires RefsFor(before) && elements == currentAddOpRefs.Keys
      requires op.kind.Add? && op !in before && log == before + [op]
      modifies `elements, `currentAddOpRefs
      ensures RefsFor(log) && elements == currentAddOpRefs.Keys
      ensures mutated <==> old(op.kind.element !in currentAddOpRefs)
    {
      hide IsLive;
      forall a
        ensures IsLive(a, log) <==> a == op || IsLive(a, before)
      {
        LiveAfter(before, op, a);
      }
      var hash := op.kind.element;
      var current := if hash in currentAddOpRefs then currentAddOpRefs[hash] else {};
      mutated := current == {};
      currentAddOpRefs := currentAddOpRefs[hash := current + {op}];
      if mutated {
        elements := elements + {hash};
      }
    }

    method MutateDelete(op: Op, ghost before: seq<Op>) returns (mutated: bool)
      requires RefsFor(before) && elements == currentAddOpRefs.Keys
      requires op.kind.DeleteAdds? && IsSetOp(op) && op !in before && log == before + [op]
      modifies `elements, `currentAddOpRefs
      ensures RefsFor(log) && elements == currentAddOpRefs.Keys
      ensures mutated <==> old(op.kind.element in currentAddOpRefs) && op.kind.element !in currentAddOpRefs
    {
      hide RefsAre;
      mutated := false;
      var hash := op.kind.element;
      RefsAfterDelete(currentAddOpRefs, op, before);
      if hash in currentAddOpRefs {
        var current := currentAddOpRefs[hash] - op.kind.deleted;
        currentAddOpRefs := currentAddOpRefs[hash := current];
        if current == {} {
          mutated := true;
          elements := elements - {hash};
          currentAddOpRefs := currentAddOpRefs - {hash};
          assert currentAddOpRefs == old(currentAddOpRefs) - {hash};
        }
      }
    }

    /** Adds or removes references; reports a change of membership. */
    method Mutate(op: Op, ghost before: seq<Op>) returns (mutated: bool)
      requires RefsFor(before) && elements == currentAddOpRefs.Keys
      requires IsSetOp(op) && op !in before && log == before + [op]
      modifies `elements, `currentAddOpRefs
      ensures RefsFor(log) && elements == currentAddOpRefs.Keys
      ensures mutated <==> HasElement(op.kind.element, before) != HasElement(op.kind.element, log)
    {
      hide IsLive, HasElement, RefsFor;
      MembersHaveAdds(op.kind.element, before);
      if op.kind.Add? {
        mutated := MutateAdd(op, before);
        assert HasElement(op.kind.element, log) by {
          LiveAfter(before, op, op);
          AddMakesMember(op);
        }
      } else {
        mutated := MutateDelete(op, before);
        DeleteMakesNoMember(op, before);
      }
      MembersHaveAdds(op.kind.element, log);
    }

    lemma AddMakesMember(op: Op)
      requires op.kind.Add? && IsLive(op, log)
      ensures HasElement(op.kind.element, log)
    {
    }

    lemma DeleteMakesNoMember(op: Op, before: seq<Op>)
      requires op.kind.DeleteAdds? && op !in before && log == before + [op]
      ensures HasElement(op.kind.element, log) ==> HasElement(op.kind.element, before)
    {
      if a :| IsLive(a, log) && a.kind == Add(op.kind.element) {
        LiveAfter(before, op, a);
      }
    }

    method Apply(op: Op) returns (applied: bool)
      requires Valid() && IsSetOp(op)
      requires op !in allAppliedOps ==> forall p :: p in op.prevs ==> p in allAppliedOps
      modifies this
      ensures Valid() && applied == (op !in old(allAppliedOps))
      ensures log == old(log) + if applied then [op] else []
    {
      hide RefsFor;
      if op in allAppliedOps {
        return false;
      }
      OneMoreInOrder(log, op);
      TerminalAfter(log, op);
      terminalOps := terminalOps - op.prevs + {op};
      allAppliedOps := allAppliedOps + {op};
      log := log + [op];
      var mutated := Mutate(op, old(log));
      applied := true;
    }

    method HasByHash(hash: Hash) returns (has: bool)
      requires Valid()
      ensures has <==> HasElement(hash, log)
    {
      MembersHaveAdds(hash, log);
      has := hash in elements;
    }

    method AddElement(element: Hash, nonce: nat) returns (op: Op)
      requires Valid()
      requires forall o :: o in allAppliedOps ==> o.nonce != nonce
      modifies this
      ensures Valid() && log == old(log) + [op]
      ensures op == Op(nonce, op.targetObject, Add(element), old(terminalOps), {})
      ensures HasElement(element, log)
    {
      op := Op(nonce, Hash(""), Add(element), terminalOps, {});
      var applied := Apply(op);
      LiveAfter(old(log), op, op);
      assert IsLive(op, log);
    }

    /** Deletes an element by naming the additions it is known for, all of which come before
        the deletion. */
    method DeleteByHash(hash: Hash, nonce: nat) returns (deleted: bool)
      requires Valid()
      requires forall o :: o in allAppliedOps ==> o.nonce != nonce
      modifies this
      ensures Valid() && !HasElement(hash, log)
      ensures deleted <==> HasElement(hash, old(log))
      ensures !deleted ==> log == old(log)
      ensures deleted ==> |log| == |old(log)| + 1 && log[..|old(log)|] == old(log)
      ensures deleted ==> log[|old(log)|].kind.DeleteAdds? && NamesItsPast(log[|old(log)|])
      ensures deleted ==> forall a :: IsDeleteOf(log[|old(log)|], a) <==> IsLive(a, old(log)) && a.kind == Add(hash)
    {
      hide InCausalOrder, IsLive;
      MembersHaveAdds(hash, log);
      if hash in currentAddOpRefs {
        var op := Op(nonce, Hash(""), DeleteAdds(hash, currentAddOpRefs[hash]), terminalOps, {});
        forall a | a in op.kind.deleted
          ensures Precedes(a, op)
        {
          LiveIsApplied(a, log);
          TerminalsCoverAll(log, terminalOps, a);
        }
        var applied := Apply(op);
        if HasElement(hash, log) {
          var a :| IsLive(a, log) && a.kind == Add(hash);
          LiveAfter(old(log), op, a);
          assert false;
        }
        deleted := true;
      } else {
        deleted := false;
      }
    }
  }

  lemma LiveIsApplied(a: Op, log: seq<Op>)
    requires IsLive(a, log)
    ensures a in log
  {
  }

  lemma TerminalAfter(log: seq<Op>, op: Op)
    requires InCausalOrder(log) && op !in log
    ensures forall o :: IsTerminalIn(o, SetOf(log) + {op}) <==>
              o == op || (IsTerminalIn(o, SetOf(log)) && o !in op.prevs)
  {
  }

  // ----- causal order -----

  lemma {:induction false} PrecedesMeansEarlier(log: seq<Op>, p: Op, j: nat)
    requires InCausalOrder(log) && j < |log| && Precedes(p, log[j])
    ensures p in log[..j]
    decreases log[j]
  {
    if p !in log[j].prevs {
      var q :| q in log[j].prevs && Precedes(p, q);
      var i :| 0 <= i < j && log[..j][i] == q;
      PrecedesMeansEarlier(log, p, i);
    }
  }

  /** An op made after the terminal ops comes after everything that has been applied. */
  lemma {:induction false} TerminalsCoverAll(log: seq<Op>, terminals: set<Op>, o: Op)
    requires InCausalOrder(log) && o in log
    requires forall t :: t in terminals <==> IsTerminalIn(t, SetOf(log))
    ensures o in terminals || exists t :: t in terminals && Precedes(o, t)
  {
    var i :| 0 <= i < |log| && log[i] == o;
    CoveredFrom(log, terminals, i);
  }

  lemma {:induction false} CoveredFrom(log: seq<Op>, terminals: set<Op>, i: nat)
    requires InCausalOrder(log) && i < |log|
    requires forall t :: t in terminals <==> IsTerminalIn(t, SetOf(log))
    ensures log[i] in terminals || exists t :: t in terminals && Precedes(log[i], t)
    decreases |log| - i
  {
    if log[i] !in terminals {
      var n :| n in log && log[i] in n.prevs;
      var j :| 0 <= j < |log| && log[j] == n;
      assert i < j by {
        var k :| 0 <= k < j && log[..j][k] == log[i];
      }
      CoveredFrom(log, terminals, j);
      if n !in terminals {
        var t :| t in terminals && Precedes(n, t);
        PrevPrecedes(log[i], n, t);
      }
    }
  }

  // ----- convergence -----

  ghost predicate IsOrderOf(log: seq<Op>, s: set<Op>) {
    InCausalOrder(log) && SetOf(log) == s
  }

  /** A deletion that names only additions of its own past, as `DeleteByHash` does. */
  ghost predicate NamesItsPast(d: Op) {
    forall a :: IsDeleteOf(d, a) ==> Precedes(a, d)
  }

  ghost predicate IsNamed(a: Op, s: set<Op>) {
    exists d :: d in s && IsDeleteOf(d, a)
  }

  ghost predicate IsNamedLater(a: Op, s: set<Op>) {
    exists d :: d in s && IsDeleteOf(d, a) && Precedes(a, d)
  }

  /** Observed remove: whatever the order, an element is a member exactly when some addition
      of it is named by no deletion, so one made concurrently with a deletion survives. */
  lemma ObservedRemove(log: seq<Op>, s: set<Op>, e: Hash)
    requires IsOrderOf(log, s) && forall d :: d in s ==> NamesItsPast(d)
    ensures HasElement(e, log) <==> exists a :: a in s && a.kind == Add(e) && !IsNamed(a, s)
  {
    forall a | a in s && a.kind.Add?
      ensures IsLive(a, log) <==> !IsNamed(a, s)
    {
      LiveUnlessNamed(log, s, a);
    }
  }

  lemma LiveUnlessNamed(log: seq<Op>, s: set<Op>, a: Op)
    requires IsOrderOf(log, s) && a in s && a.kind.Add?
    ensures IsNamedLater(a, s) ==> !IsLive(a, log)
    ensures !IsNamed(a, s) ==> IsLive(a, log)
  {
    if d :| d in s && IsDeleteOf(d, a) && Precedes(a, d) {
      var j :| 0 <= j < |log| && log[j] == d;
      PrecedesMeansEarlier(log, a, j);
    }
    if !IsNamed(a, s) {
      assert forall j :: 0 <= j < |log| ==> log[j] in s;
    }
  }

  /** All replicas that have applied the ops of `s` agree. */
  ghost predicate OrdersAgree(s: set<Op>) {
    forall l, m, a :: IsOrderOf(l, s) && IsOrderOf(m, s) ==> (IsLive(a, l) <==> IsLive(a, m))
  }

  /** Validation does not ask that a deletion names its past only. Replicas agree on what is
      live exactly when every addition that is named is named by some later deletion. */
  lemma ReplicasAgreeExactlyWhen(s: set<Op>)
    requires PrevsApplied(s) && forall o :: o in s ==> IsSetOp(o)
    ensures OrdersAgree(s) <==> forall a :: a in s && IsNamed(a, s) ==> IsNamedLater(a, s)
  {
    if forall a :: a in s && IsNamed(a, s) ==> IsNamedLater(a, s) {
      forall l, m, a | IsOrderOf(l, s) && IsOrderOf(m, s)
        ensures IsLive(a, l) <==> IsLive(a, m)
      {
        if a in s && a.kind.Add? {
          LiveUnlessNamed(l, s, a);
          LiveUnlessNamed(m, s, a);
        }
      }
    } else {
      var a :| a in s && IsNamed(a, s) && !IsNamedLater(a, s);
      var l := AddFirst(s, a);
      var m := DeletionsFirst(s, a);
    }
  }

  /** Some causal order has the addition before every deletion that names it. */
  lemma AddFirst(s: set<Op>, a: Op) returns (log: seq<Op>)
    requires PrevsApplied(s) && a in s && IsNamed(a, s)
    ensures IsOrderOf(log, s) && !IsLive(a, log)
  {
    var past := set p | p in s && (p == a || Precedes(p, a));
    forall q, p | q in past && p in q.prevs
      ensures p in past
    {
      PrevPrecedes(p, q, a);
    }
    var base := Extend([], past);
    log := Extend(base, s);
    var d :| d in s && IsDeleteOf(d, a);
    assert d !in past by {
      assert a < d;
      if Precedes(d, a) {
        PrecedesIsSmaller(d, a);
      }
    }
    var j :| 0 <= j < |log| && log[j] == d;
    assert |base| <= j;
    assert a in base && log[..|base|] == base;
    assert forall k :: 0 <= k < |base| ==> base[k] == log[..j][k];
  }

  /** If none of the deletions that name it is later, some causal order has them all first. */
  lemma DeletionsFirst(s: set<Op>, a: Op) returns (log: seq<Op>)
    requires PrevsApplied(s) && a in s && IsNamed(a, s) && !IsNamedLater(a, s)
    requires forall o :: o in s ==> IsSetOp(o)
    ensures IsOrderOf(log, s) && IsLive(a, log)
  {
    var past := set p | p in s && exists d :: d in s && IsDeleteOf(d, a) && (p == d || Precedes(p, d));
    forall q, p | q in past && p in q.prevs
      ensures p in past
    {
      var d :| d in s && IsDeleteOf(d, a) && (q == d || Precedes(q, d));
      PrevPrecedes(p, q, d);
    }
    var base := Extend([], past);
    log := Extend(base, s);
    forall j | 0 <= j < |log| && IsDeleteOf(log[j], a)
      ensures a !in log[..j]
    {
      assert log[j] in past && a !in past;
      var i :| 0 <= i < |base| && base[i] == log[j];
      assert log[i] == log[j];
      assert log[..j] == base[..j];
    }
  }

  /** Every causal order of some of the ops can be continued to one of all of them. */
  lemma {:induction false} Extend(base: seq<Op>, s: set<Op>) returns (log: seq<Op>)
    requires InCausalOrder(base) && SetOf(base) <= s && PrevsApplied(s)
    ensures IsOrderOf(log, s) && base <= log
    decreases s - SetOf(base)
  {
    if SetOf(base) == s {
      log := base;
    } else {
      var o :| o in s && o !in base;
      var next := Ready(o, base, s);
      OneMoreInOrder(base, next);
      log := Extend(base + [next], s);
    }
  }

  lemma {:induction false} Ready(o: Op, base: seq<Op>, s: set<Op>) returns (r: Op)
    requires o in s && o !in base && PrevsApplied(s)
    ensures r in s && r !in base && forall p :: p in r.prevs ==> p in base
    decreases o
  {
    if p :| p in o.prevs && p !in base {
      r := Ready(p, base, s);
    } else {
      r := o;
    }
  }
}
