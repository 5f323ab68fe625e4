/** Forkable ops and the ancestor order of their DAG. An op names its predecessors by
    content hash, so the graph below an op is a finite tree of shared parts: an op is
    represented here together with the ops it points to, and equal hash means equal op. */
module ForkOps {
  import opened Hashing

  /** A linear op has at most one predecessor, a merge op any number. `deps` holds the
      hashes of the ops of other objects that must be in their objects' current fork. */
  datatype ForkOp = ForkOp(nonce: nat, prevs: seq<ForkOp>, deps: set<Hash>)

  /** `a` is `d` itself or can be reached from `d` by following predecessors. */
  ghost predicate IsAncestor(a: ForkOp, d: ForkOp) {
    a == d || exists p :: p in d.prevs && IsAncestor(a, p)
  }

  ghost predicate IsProperAncestor(a: ForkOp, d: ForkOp) {
    exists p :: p in d.prevs && IsAncestor(a, p)
  }

  /** The number of backward paths that start at an op. Walks that keep no visited set
      expand an op once per path, and this is what they use up. */
  ghost function Weight(op: ForkOp): (w: nat)
    ensures w > 0
    decreases op
  {
    1 + TotalWeight(op.prevs)
  }

  ghost function TotalWeight(ops: seq<ForkOp>): nat
    decreases ops
  {
    if ops == [] then 0 else Weight(ops[0]) + TotalWeight(ops[1..])
  }

  lemma {:induction false} TotalWeightConcat(a: seq<ForkOp>, b: seq<ForkOp>)
    ensures TotalWeight(a + b) == TotalWeight(a) + TotalWeight(b)
  {
    if a == [] {
      assert a + b == b;
    } else {
      TotalWeightConcat(a[1..], b);
      assert (a + b)[1..] == a[1..] + b;
    }
  }

  /** What a walk still has to spend drops when it takes the first op off its queue,
      even when it then queues all the predecessors of that op. */
  lemma DequeueWeight(queue: seq<ForkOp>)
    requires queue != []
    ensures TotalWeight(queue[1..]) < TotalWeight(queue)
    ensures TotalWeight(queue[1..] + queue[0].prevs) < TotalWeight(queue)
  {
    TotalWeightConcat(queue[1..], queue[0].prevs);
    assert Weight(queue[0]) == 1 + TotalWeight(queue[0].prevs);
  }

  lemma {:induction false} WeightOfMember(p: ForkOp, ops: seq<ForkOp>)
    requires p in ops
    ensures Weight(p) <= TotalWeight(ops)
  {
    if p != ops[0] {
      WeightOfMember(p, ops[1..]);
    }
  }

  lemma {:induction false} AncestorTransitive(a: ForkOp, b: ForkOp, c: ForkOp)
    requires IsAncestor(a, b) && IsAncestor(b, c)
    ensures IsAncestor(a, c)
    decreases c
  {
    if b != c {
      var p :| p in c.prevs && IsAncestor(b, p);
      AncestorTransitive(a, b, p);
    }
  }

  lemma {:induction false} AncestorWeight(a: ForkOp, d: ForkOp)
    requires IsAncestor(a, d)
    ensures a == d || Weight(a) < Weight(d)
    decreases d
  {
    if a != d {
      var p :| p in d.prevs && IsAncestor(a, p);
      AncestorWeight(a, p);
      WeightOfMember(p, d.prevs);
    }
  }

  lemma PrevIsAncestor(p: ForkOp, d: ForkOp)
    requires p in d.prevs
    ensures IsAncestor(p, d) && Weight(p) < Weight(d)
  {
    assert IsAncestor(p, p);
    WeightOfMember(p, d.prevs);
  }

  /** The last edge of a backward path from `d` to a proper ancestor. */
  lemma {:induction false} LastStep(a: ForkOp, d: ForkOp) returns (y: ForkOp)
    requires IsAncestor(a, d) && a != d
    ensures IsAncestor(y, d) && a in y.prevs
    decreases d
  {
    var p :| p in d.prevs && IsAncestor(a, p);
    if a == p {
      y := d;
    } else {
      y := LastStep(a, p);
      PrevIsAncestor(p, d);
      AncestorTransitive(y, p, d);
    }
  }

  /** A finite set of ops has a heaviest member, and no member is below it. */
  lemma {:induction false} Heaviest(s: set<ForkOp>) returns (m: ForkOp)
    requires s != {}
    ensures m in s && forall x :: x in s ==> Weight(x) <= Weight(m)
    decreases |s|
  {
    m :| m in s;
    var rest := s - {m};
    if rest != {} {
      var n := Heaviest(rest);
      if Weight(m) <= Weight(n) {
        m := n;
      }
      assert forall x :: x in s ==> x in rest || x == m || Weight(x) <= Weight(m);
    }
  }

  /** A set of ops that contains the predecessors of its members contains their ancestors. */
  ghost predicate PrevClosed(s: set<ForkOp>) {
    forall x, p :: x in s && p in x.prevs ==> p in s
  }

  lemma {:induction false} ClosedHasAncestors(s: set<ForkOp>, a: ForkOp, d: ForkOp)
    requires PrevClosed(s) && d in s && IsAncestor(a, d)
    ensures a in s
    decreases d
  {
    if a != d {
      var p :| p in d.prevs && IsAncestor(a, p);
      ClosedHasAncestors(s, a, p);
    }
  }
}
