/** Merging branches: finding the point at which the merged ops forked. */
module MergeOps {
  import opened Hashing
  import opened FiniteSets
  import opened MultiMaps
  import opened ForkOps

  datatype Visit = Visit(target: ForkOp, op: ForkOp)

  datatype ForkPoint = ForkPoint(forkPointOp: Option<ForkOp>, contents: set<ForkOp>, terminals: set<ForkOp>)

  /** `a` is an ancestor of (or is) every merged op. */
  ghost predicate IsCommon(a: ForkOp, heads: set<ForkOp>) {
    forall t :: t in heads ==> IsAncestor(a, t)
  }

  ghost predicate IsBelowSome(a: ForkOp, heads: set<ForkOp>) {
    exists t :: t in heads && IsAncestor(a, t)
  }

  /** `f` is the greatest common ancestor: the common ancestors are `f` and what is below it. */
  ghost predicate IsGreatestCommon(f: ForkOp, heads: set<ForkOp>) {
    IsCommon(f, heads) && forall a :: IsCommon(a, heads) ==> IsAncestor(a, f)
  }

  /** Not a proper ancestor of another merged op. */
  ghost predicate IsMaximalHead(t: ForkOp, heads: set<ForkOp>) {
    t in heads && forall u :: u in heads && IsAncestor(t, u) ==> t == u
  }

  // ----- what one scan has found so far -----

  /** `mergedContent` relates an op to the merged ops it was reached from; `intersection`
      holds the ops reached from all of them, and `forkPointOps` those of these that no
      other one follows. The `next` relations invert predecessors. */
  datatype Scan = Scan(mergedContent: Rel<ForkOp, ForkOp>, mergedNextOps: Rel<ForkOp, ForkOp>,
                       intersectionOps: set<ForkOp>, intersectionNextOps: Rel<ForkOp, ForkOp>,
                       forkPointOps: set<ForkOp>)

  /** The edges from an op to its predecessors, turned around. */
  function Inverted(op: ForkOp): (r: Rel<ForkOp, ForkOp>)
    ensures forall p, o :: (p, o) in r <==> o == op && p in op.prevs
  {
    set p | p in op.prevs :: (p, op)
  }

  function Intersect(s: Scan, op: ForkOp): Scan {
    var points := if Get(s.intersectionNextOps, op) == {} then s.forkPointOps + {op} else s.forkPointOps;
    s.(intersectionOps := s.intersectionOps + {op},
       forkPointOps := points - (set p | p in op.prevs),
       intersectionNextOps := s.intersectionNextOps + Inverted(op))
  }

  function Record(s: Scan, v: Visit, heads: set<ForkOp>): Scan {
    if v.target in Get(s.mergedContent, v.op) then s
    else
      var r := s.(mergedContent := s.mergedContent + {(v.op, v.target)},
                  mergedNextOps := s.mergedNextOps + Inverted(v.op));
      if |Get(r.mergedContent, v.op)| == |heads| then Intersect(r, v.op) else r
  }

  ghost predicate MergedExact(s: Scan, heads: set<ForkOp>) {
    && (forall o, t :: (o, t) in s.mergedContent ==> t in heads && IsAncestor(o, t))
    && (forall p, o :: (p, o) in s.mergedNextOps <==> p in o.prevs && Get(s.mergedContent, o) != {})
  }

  ghost predicate IntersectionExact(s: Scan, heads: set<ForkOp>) {
    && (forall o :: o in s.intersectionOps <==>
                    Get(s.mergedContent, o) != {} && forall t :: t in heads ==> (o, t) in s.mergedContent)
    && (forall p, o :: (p, o) in s.intersectionNextOps <==> p in o.prevs && o in s.intersectionOps)
    && (forall o :: o in s.forkPointOps <==>
                    o in s.intersectionOps && forall y :: y in s.intersectionOps ==> o !in y.prevs)
  }

  lemma RecordKeepsMerged(s: Scan, v: Visit, heads: set<ForkOp>)
    requires MergedExact(s, heads) && v.target in heads && IsAncestor(v.op, v.target)
    ensures MergedExact(Record(s, v, heads), heads)
    ensures (v.op, v.target) in Record(s, v, heads).mergedContent
    ensures forall o, t :: (o, t) in Record(s, v, heads).mergedContent <==>
                           (o, t) in s.mergedContent || (o == v.op && t == v.target)
  {
    var r := Record(s, v, heads);
    assert (v.op, v.target) in r.mergedContent;
    forall o
      ensures Get(r.mergedContent, o) != {} <==> Get(s.mergedContent, o) != {} || o == v.op
    {
      if t :| t in Get(s.mergedContent, o) {
        assert t in Get(r.mergedContent, o);
      }
      if t :| t in Get(r.mergedContent, o) {
        assert (o, t) in s.mergedContent || o == v.op;
      }
      assert v.target in Get(r.mergedContent, v.op);
    }
  }

  lemma IntersectKeeps(s: Scan, r: Scan, op: ForkOp, heads: set<ForkOp>)
    requires IntersectionExact(s, heads) && op !in s.intersectionOps
    requires r.intersectionOps == s.intersectionOps && r.forkPointOps == s.forkPointOps
    requires r.intersectionNextOps == s.intersectionNextOps
    requires forall o :: o in s.intersectionOps || o == op <==>
                         Get(r.mergedContent, o) != {} && forall t :: t in heads ==> (o, t) in r.mergedContent
    ensures IntersectionExact(Intersect(r, op), heads)
  {
  }

  lemma RecordKeepsIntersection(s: Scan, v: Visit, heads: set<ForkOp>)
    requires MergedExact(s, heads) && IntersectionExact(s, heads)
    requires v.target in heads && IsAncestor(v.op, v.target)
    ensures IntersectionExact(Record(s, v, heads), heads)
  {
    if v.target !in Get(s.mergedContent, v.op) {
      RecordKeepsMerged(s, v, heads);
      var r := s.(mergedContent := s.mergedContent + {(v.op, v.target)},
                  mergedNextOps := s.mergedNextOps + Inverted(v.op));
      SubsetIsSmaller(Get(r.mergedContent, v.op), heads);
      assert v.target in Get(r.mergedContent, v.op);
      forall o | o != v.op
        ensures Get(r.mergedContent, o) == Get(s.mergedContent, o)
      {
      }
      if Get(r.mergedContent, v.op) == heads {
        assert forall t :: t in heads ==> (v.op, t) in r.mergedContent;
        IntersectKeeps(s, r, v.op, heads);
      }
    }
  }

  // ----- what the walk is still going to find -----

  /** `stop` is the op whose predecessors were skipped when the walk ended early. */
  ghost predicate Covered(a: ForkOp, t: ForkOp, s: Scan, toVisit: seq<Visit>, stop: Option<ForkOp>) {
    || (a, t) in s.mergedContent
    || (exists v :: v in toVisit && v.target == t && IsAncestor(a, v.op))
    || (stop.Some? && IsProperAncestor(a, stop.value))
  }

  ghost predicate AllCovered(heads: set<ForkOp>, s: Scan, toVisit: seq<Visit>, stop: Option<ForkOp>) {
    forall a, t :: t in heads && IsAncestor(a, t) ==> Covered(a, t, s, toVisit, stop)
  }

  ghost predicate VisitsValid(heads: set<ForkOp>, s: Scan, toVisit: seq<Visit>) {
    forall v :: v in toVisit ==>
                  && v.target in heads && IsAncestor(v.op, v.target)
                  && (v.op in heads || Get(s.mergedNextOps, v.op) != {})
  }

  /** Ops below no other merged op are reached only as merged ops themselves. */
  ghost predicate ReachedFromAbove(heads: set<ForkOp>, s: Scan) {
    forall o, t :: (o, t) in s.mergedContent ==> o in heads || Get(s.mergedNextOps, o) != {}
  }

  ghost predicate StopValid(s: Scan, toVisit: seq<Visit>, stop: Option<ForkOp>) {
    stop.Some? ==> toVisit == [] && stop.value in s.intersectionOps && |s.forkPointOps| <= 1
  }

  ghost predicate ScanValid(heads: set<ForkOp>, s: Scan, toVisit: seq<Visit>, stop: Option<ForkOp>) {
    && MergedExact(s, heads) && IntersectionExact(s, heads)
    && AllCovered(heads, s, toVisit, stop) && VisitsValid(heads, s, toVisit)
    && ReachedFromAbove(heads, s) && StopValid(s, toVisit, stop)
  }

  function VisitsOf(target: ForkOp, ops: seq<ForkOp>): (vs: seq<Visit>)
    ensures forall v :: v in vs <==> v.target == target && v.op in ops
  {
    if ops == [] then [] else [Visit(target, ops[0])] + VisitsOf(target, ops[1..])
  }

  ghost function OpsOf(visits: seq<Visit>): (ops: seq<ForkOp>)
    ensures |ops| == |visits|
  {
    if visits == [] then [] else [visits[0].op] + OpsOf(visits[1..])
  }

  lemma {:induction false} OpsOfConcat(a: seq<Visit>, b: seq<Visit>)
    ensures OpsOf(a + b) == OpsOf(a) + OpsOf(b)
    decreases |a|
  {
    if a == [] {
      assert a + b == b;
    } else {
      OpsOfConcat(a[1..], b);
      assert (a + b)[1..] == a[1..] + b && (a + b)[0] == a[0];
      assert [a[0].op] + (OpsOf(a[1..]) + OpsOf(b)) == [a[0].op] + OpsOf(a[1..]) + OpsOf(b);
    }
  }

  lemma {:induction false} OpsOfVisits(target: ForkOp, ops: seq<ForkOp>)
    ensures OpsOf(VisitsOf(target, ops)) == ops
  {
    if ops != [] {
      OpsOfVisits(target, ops[1..]);
      assert VisitsOf(target, ops)[1..] == VisitsOf(target, ops[1..]);
    }
  }

  lemma VisitUsesWeight(toVisit: seq<Visit>)
    requires toVisit != []
    ensures var v := toVisit[0];
            && TotalWeight(OpsOf(toVisit[1..])) < TotalWeight(OpsOf(toVisit))
            && TotalWeight(OpsOf(toVisit[1..] + VisitsOf(v.target, v.op.prevs))) < TotalWeight(OpsOf(toVisit))
  {
    var v := toVisit[0];
    DequeueWeight(OpsOf(toVisit));
    OpsOfVisits(v.target, v.op.prevs);
    OpsOfConcat(toVisit[1..], VisitsOf(v.target, v.op.prevs));
  }

  lemma RecordGrows(s: Scan, v: Visit, heads: set<ForkOp>)
    requires MergedExact(s, heads)
    ensures s.mergedContent <= Record(s, v, heads).mergedContent
    ensures s.mergedNextOps <= Record(s, v, heads).mergedNextOps
    ensures forall o :: Get(s.mergedNextOps, o) <= Get(Record(s, v, heads).mergedNextOps, o)
    ensures forall p :: p in v.op.prevs ==> Get(Record(s, v, heads).mergedNextOps, p) != {}
  {
  }

  lemma VisitKeepsCover(heads: set<ForkOp>, s: Scan, toVisit: seq<Visit>)
    requires ScanValid(heads, s, toVisit, None) && toVisit != []
    ensures var v := toVisit[0];
            var r := Record(s, v, heads);
            && AllCovered(heads, r, toVisit[1..] + VisitsOf(v.target, v.op.prevs), None)
            && AllCovered(heads, r, toVisit[1..], Some(v.op))
  {
    var v := toVisit[0];
    var r := Record(s, v, heads);
    RecordGrows(s, v, heads);
    RecordKeepsMerged(s, v, heads);
    var rest := VisitsOf(v.target, v.op.prevs);
    forall a, t | t in heads && IsAncestor(a, t)
      ensures Covered(a, t, r, toVisit[1..] + rest, None)
      ensures Covered(a, t, r, toVisit[1..], Some(v.op))
    {
      assert Covered(a, t, s, toVisit, None);
      if (a, t) !in s.mergedContent {
        var w :| w in toVisit && w.target == t && IsAncestor(a, w.op);
        if w in toVisit[1..] {
          assert w in toVisit[1..] + rest;
        } else if a != v.op {
          var p :| p in v.op.prevs && IsAncestor(a, p);
          assert Visit(v.target, p) in rest;
        }
      }
    }
  }

  lemma VisitKeepsRest(heads: set<ForkOp>, s: Scan, toVisit: seq<Visit>)
    requires ScanValid(heads, s, toVisit, None) && toVisit != []
    ensures var v := toVisit[0];
            var r := Record(s, v, heads);
            && VisitsValid(heads, r, toVisit[1..] + VisitsOf(v.target, v.op.prevs))
            && VisitsValid(heads, r, toVisit[1..])
            && ReachedFromAbove(heads, r)
  {
    var v := toVisit[0];
    var r := Record(s, v, heads);
    RecordGrows(s, v, heads);
    RecordKeepsMerged(s, v, heads);
    forall p | p in v.op.prevs
      ensures IsAncestor(p, v.target)
    {
      PrevIsAncestor(p, v.op);
      AncestorTransitive(p, v.op, v.target);
    }
    forall o | Get(s.mergedNextOps, o) != {}
      ensures Get(r.mergedNextOps, o) != {}
    {
      assert Get(s.mergedNextOps, o) <= Get(r.mergedNextOps, o);
    }
  }

  // ----- what a finished walk has found -----

  lemma IntersectionIsCommon(heads: set<ForkOp>, s: Scan, x: ForkOp)
    requires MergedExact(s, heads) && IntersectionExact(s, heads) && x in s.intersectionOps
    ensures IsCommon(x, heads)
  {
  }

  /** Every common ancestor was found, or lies below the op at which the walk stopped. */
  lemma CommonIsFound(heads: set<ForkOp>, s: Scan, stop: Option<ForkOp>, a: ForkOp)
    requires ScanValid(heads, s, [], stop) && heads != {} && IsCommon(a, heads)
    ensures a in s.intersectionOps || (stop.Some? && IsProperAncestor(a, stop.value))
  {
  }

  lemma ProperIsBelow(a: ForkOp, d: ForkOp)
    requires IsProperAncestor(a, d)
    ensures IsAncestor(a, d) && !IsAncestor(d, a)
  {
    var p :| p in d.prevs && IsAncestor(a, p);
    PrevIsAncestor(p, d);
    AncestorWeight(a, p);
    if IsAncestor(d, a) {
      AncestorWeight(d, a);
    }
  }

  /** Climbing from an op of the intersection ends at one of the fork points. */
  lemma TopOfIntersection(heads: set<ForkOp>, s: Scan, x: ForkOp) returns (m: ForkOp)
    requires IntersectionExact(s, heads) && x in s.intersectionOps
    ensures m in s.forkPointOps && IsAncestor(x, m)
  {
    var above := set y | y in s.intersectionOps && IsAncestor(x, y);
    assert x in above;
    m := Heaviest(above);
    forall y | y in s.intersectionOps
      ensures m !in y.prevs
    {
      if m in y.prevs {
        PrevIsAncestor(m, y);
        AncestorTransitive(x, m, y);
      }
    }
  }

  lemma SinglePointIsGreatest(heads: set<ForkOp>, s: Scan, stop: Option<ForkOp>, f: ForkOp)
    requires ScanValid(heads, s, [], stop) && heads != {} && s.forkPointOps == {f}
    ensures IsGreatestCommon(f, heads)
  {
    hide MergedExact, AllCovered, VisitsValid, ReachedFromAbove, IsAncestor, IsProperAncestor;
    IntersectionIsCommon(heads, s, f);
    forall a | IsCommon(a, heads)
      ensures IsAncestor(a, f)
    {
      CommonIsFound(heads, s, stop, a);
      var x := if a in s.intersectionOps then a else stop.value;
      if x != a {
        ProperIsBelow(a, x);
      }
      var m := TopOfIntersection(heads, s, x);
      AncestorTransitive(a, x, m);
    }
  }

  lemma GreatestIsPoint(heads: set<ForkOp>, s: Scan, stop: Option<ForkOp>, g: ForkOp)
    requires ScanValid(heads, s, [], stop) && heads != {} && IsGreatestCommon(g, heads)
    ensures g in s.forkPointOps
  {
    CommonIsFound(heads, s, stop, g);
    if g !in s.intersectionOps {
      IntersectionIsCommon(heads, s, stop.value);
      ProperIsBelow(g, stop.value);
      assert false;
    }
    forall y | y in s.intersectionOps
      ensures g !in y.prevs
    {
      if g in y.prevs {
        IntersectionIsCommon(heads, s, y);
        PrevIsAncestor(g, y);
        AncestorWeight(y, g);
      }
    }
  }

  /** A second fork point would have a common op right above it, which the walk found. */
  lemma GreatestIsOnlyPoint(heads: set<ForkOp>, s: Scan, stop: Option<ForkOp>, g: ForkOp, m: ForkOp)
    requires ScanValid(heads, s, [], stop) && heads != {} && IsGreatestCommon(g, heads)
    requires {m, g} <= s.forkPointOps
    ensures m == g
  {
    hide MergedExact, AllCovered, VisitsValid, ReachedFromAbove, IsAncestor;
    SubsetIsSmaller({m, g}, s.forkPointOps);
    if m != g {
      IntersectionIsCommon(heads, s, m);
      var y := LastStep(m, g);
      forall t | t in heads
        ensures IsAncestor(y, t)
      {
        AncestorTransitive(y, g, t);
      }
      CommonIsFound(heads, s, stop, y);
    }
  }

  /** The merged ops without a visited successor are the maximal ones. */
  lemma MaximalHeads(heads: set<ForkOp>, s: Scan, stop: Option<ForkOp>, o: ForkOp)
    requires ScanValid(heads, s, [], stop)
    ensures Get(s.mergedContent, o) != {} && Get(s.mergedNextOps, o) == {} <==> IsMaximalHead(o, heads)
  {
    if Get(s.mergedContent, o) != {} && Get(s.mergedNextOps, o) == {} {
      var t :| t in Get(s.mergedContent, o);
      forall u | u in heads && IsAncestor(o, u)
        ensures o == u
      {
        if o != u {
          CoveredFromAbove(heads, s, stop, o, u);
        }
      }
    }
    if IsMaximalHead(o, heads) {
      assert IsAncestor(o, o) && Covered(o, o, s, [], stop);
      if stop.Some? && IsProperAncestor(o, stop.value) {
        IntersectionIsCommon(heads, s, stop.value);
        ProperIsBelow(o, stop.value);
        assert false;
      }
      assert o in Get(s.mergedContent, o);
      if y :| y in Get(s.mergedNextOps, o) {
        var t :| t in Get(s.mergedContent, y);
        PrevIsAncestor(o, y);
        AncestorTransitive(o, y, t);
        AncestorWeight(y, t);
      }
    }
  }

  /** A merged op below another one has a visited successor. */
  lemma CoveredFromAbove(heads: set<ForkOp>, s: Scan, stop: Option<ForkOp>, o: ForkOp, u: ForkOp)
    requires ScanValid(heads, s, [], stop)
    requires o in heads && u in heads && IsAncestor(o, u) && o != u
    ensures Get(s.mergedNextOps, o) != {}
  {
    var y := LastStep(o, u);
    assert Covered(y, u, s, [], stop);
    if (y, u) in s.mergedContent {
      assert u in Get(s.mergedContent, y);
      assert y in Get(s.mergedNextOps, o);
    } else {
      IntersectionIsCommon(heads, s, stop.value);
      ProperIsBelow(y, stop.value);
      PrevIsAncestor(o, y);
      AncestorTransitive(stop.value, o, y);
    }
  }

  /** What a fork point says about the merged ops. */
  ghost predicate Describes(r: ForkPoint, heads: set<ForkOp>) {
    // a fork point is reported iff there is a greatest common ancestor, and it is that one
    && (forall f :: r.forkPointOp == Some(f) <==> heads != {} && IsGreatestCommon(f, heads))
    // what only some of the merged ops follow from is in the contents; without a fork point
    // everything they follow from is
    && (forall a :: IsBelowSome(a, heads) && !IsCommon(a, heads) ==> a in r.contents)
    && (forall a :: IsBelowSome(a, heads) && r.forkPointOp.None? ==> a in r.contents)
    && (forall a :: a in r.contents ==> IsBelowSome(a, heads) && r.forkPointOp != Some(a))
    && (|heads| == 1 ==> r.contents == {})
    // the terminals are the merged ops that are not below another one
    && r.terminals <= r.contents
    && (|heads| != 1 ==> forall t :: t in r.terminals <==> IsMaximalHead(t, heads))
  }

  /** Which ops the search has found from which merged ops: only what is below these, and all
      of it but for what is below the fork point, where the search may end early. The contents
      are what it has found, without what it has found from all of them if there is a fork point. */
  ghost predicate IsFoundIn(r: ForkPoint, heads: set<ForkOp>, found: Rel<ForkOp, ForkOp>) {
    && (forall a, t :: (a, t) in found ==> t in heads && IsAncestor(a, t))
    && (forall a, t :: t in heads && IsAncestor(a, t) ==>
          (a, t) in found || (r.forkPointOp.Some? && IsProperAncestor(a, r.forkPointOp.value)))
    && (forall a :: a in r.contents <==>
          (exists t :: (a, t) in found) &&
          (r.forkPointOp.None? || exists t :: t in heads && (a, t) !in found))
  }

  lemma SearchHasFound(r: ForkPoint, s: Scan, heads: set<ForkOp>, stop: Option<ForkOp>)
    requires ScanValid(heads, s, [], stop)
    requires r.forkPointOp.Some? <==> |s.forkPointOps| == 1
    requires r.forkPointOp.Some? ==> s.forkPointOps == {r.forkPointOp.value}
    requires forall a :: a in r.contents <==>
                         Get(s.mergedContent, a) != {} && (|s.forkPointOps| == 1 ==> a !in s.intersectionOps)
    ensures IsFoundIn(r, heads, s.mergedContent)
  {
    hide IsAncestor, IsProperAncestor, Covered;
    forall a, t | t in heads && IsAncestor(a, t) && (a, t) !in s.mergedContent
      ensures r.forkPointOp.Some? && IsProperAncestor(a, r.forkPointOp.value)
    {
      FoundOrStopped(heads, s, stop, a, t);
      var m := TopOfIntersection(heads, s, stop.value);
      SizeOne(s.forkPointOps);
      ProperlyBelow(a, stop.value, m);
    }
    forall a
      ensures Get(s.mergedContent, a) != {} <==> exists t :: (a, t) in s.mergedContent
    {
      if t :| (a, t) in s.mergedContent {
        assert t in Get(s.mergedContent, a);
      }
      if t :| t in Get(s.mergedContent, a) {
        assert (a, t) in s.mergedContent;
      }
    }
  }

  lemma ProperlyBelow(a: ForkOp, b: ForkOp, c: ForkOp)
    requires IsProperAncestor(a, b) && IsAncestor(b, c)
    ensures IsProperAncestor(a, c)
  {
    if b != c {
      var p :| p in b.prevs && IsAncestor(a, p);
      PrevIsAncestor(p, b);
      AncestorTransitive(a, p, b);
      var q :| q in c.prevs && IsAncestor(b, q);
      AncestorTransitive(a, b, q);
    }
  }

  lemma ForkPointFound(heads: set<ForkOp>, s: Scan, stop: Option<ForkOp>, f: ForkOp)
    requires ScanValid(heads, s, [], stop)
    ensures s.forkPointOps == {f} <==> heads != {} && IsGreatestCommon(f, heads)
  {
    hide AllCovered, VisitsValid, ReachedFromAbove, StopValid, IsAncestor;
    if s.forkPointOps == {f} {
      assert f in s.intersectionOps;
      var t :| t in Get(s.mergedContent, f);
      assert (f, t) in s.mergedContent;
      SinglePointIsGreatest(heads, s, stop, f);
    }
    if heads != {} && IsGreatestCommon(f, heads) {
      GreatestIsPoint(heads, s, stop, f);
      forall m | m in s.forkPointOps
        ensures m == f
      {
        GreatestIsOnlyPoint(heads, s, stop, f, m);
      }
    }
  }

  lemma {:induction false} SizeOne(a: set<ForkOp>)
    ensures |a| == 1 <==> exists f :: a == {f}
  {
    if |a| == 1 {
      var f :| f in a;
      SubsetIsSmaller({f}, a);
    }
  }

  lemma FoundOrStopped(heads: set<ForkOp>, s: Scan, stop: Option<ForkOp>, a: ForkOp, t: ForkOp)
    requires ScanValid(heads, s, [], stop) && t in heads && IsAncestor(a, t)
    ensures (a, t) in s.mergedContent ||
            (stop.Some? && IsProperAncestor(a, stop.value) && stop.value in s.intersectionOps &&
             |s.forkPointOps| <= 1)
  {
    hide MergedExact, IntersectionExact, VisitsValid, ReachedFromAbove, IsAncestor, IsProperAncestor;
    assert Covered(a, t, s, [], stop);
  }

  /** What lies below an op of the intersection is common, and a fork point lies above. */
  lemma BelowStopIsCommon(heads: set<ForkOp>, s: Scan, stop: Option<ForkOp>, a: ForkOp, x: ForkOp)
    requires ScanValid(heads, s, [], stop) && x in s.intersectionOps && IsProperAncestor(a, x)
    ensures IsCommon(a, heads) && s.forkPointOps != {}
  {
    hide MergedExact, IntersectionExact, VisitsValid, ReachedFromAbove, AllCovered, StopValid, IsAncestor;
    hide IsProperAncestor;
    IntersectionIsCommon(heads, s, x);
    ProperIsBelow(a, x);
    forall u | u in heads
      ensures IsAncestor(a, u)
    {
      AncestorTransitive(a, x, u);
    }
    var m := TopOfIntersection(heads, s, x);
  }

  lemma ContentsCover(heads: set<ForkOp>, s: Scan, stop: Option<ForkOp>, a: ForkOp)
    requires ScanValid(heads, s, [], stop) && IsBelowSome(a, heads)
    ensures !IsCommon(a, heads) ==> a !in s.intersectionOps && Get(s.mergedContent, a) != {}
    ensures |s.forkPointOps| != 1 ==> Get(s.mergedContent, a) != {}
  {
    hide ScanValid, IsAncestor, IsProperAncestor, IsCommon;
    var t :| t in heads && IsAncestor(a, t);
    FoundOrStopped(heads, s, stop, a, t);
    if (a, t) in s.mergedContent {
      assert t in Get(s.mergedContent, a);
    } else {
      BelowStopIsCommon(heads, s, stop, a, stop.value);
    }
    if a in s.intersectionOps {
      assert IsCommon(a, heads) by { FoundIsCommon(heads, s, stop, a); }
    }
  }

  lemma FoundIsCommon(heads: set<ForkOp>, s: Scan, stop: Option<ForkOp>, a: ForkOp)
    requires ScanValid(heads, s, [], stop) && a in s.intersectionOps
    ensures IsCommon(a, heads)
  {
    hide MergedExact, IntersectionExact, VisitsValid, ReachedFromAbove, AllCovered, StopValid, IsCommon;
    IntersectionIsCommon(heads, s, a);
  }

  lemma OnlyHead(heads: set<ForkOp>, s: Scan, stop: Option<ForkOp>, a: ForkOp)
    requires ScanValid(heads, s, [], stop) && |heads| == 1 && Get(s.mergedContent, a) != {}
    ensures a in s.intersectionOps && |s.forkPointOps| == 1
  {
    SizeOne(heads);
    var h :| heads == {h};
    var t :| t in Get(s.mergedContent, a);
    assert (a, t) in s.mergedContent;
    assert IsGreatestCommon(h, heads) by {
      assert IsAncestor(h, h);
    }
    ForkPointFound(heads, s, stop, h);
  }

  /** Reads the result off a finished scan. */
  method Summary(s: Scan, heads: set<ForkOp>, ghost stop: Option<ForkOp>) returns (r: ForkPoint)
    requires ScanValid(heads, s, [], stop)
    ensures Describes(r, heads) && IsFoundIn(r, heads, s.mergedContent)
  {
    hide ScanValid, Describes, IsFoundIn;
    var forkPointOp: Option<ForkOp> := None;
    SizeOne(s.forkPointOps);
    if |s.forkPointOps| == 1 {
      var f :| f in s.forkPointOps;
      forkPointOp := Some(f);
    }
    var contents := set e | e in s.mergedContent && (forkPointOp.None? || e.0 !in s.intersectionOps) :: e.0;
    var terminals := set o | o in contents && Get(s.mergedNextOps, o) == {};
    r := ForkPoint(forkPointOp, contents, terminals);
    forall a
      ensures a in contents <==>
              Get(s.mergedContent, a) != {} && (|s.forkPointOps| == 1 ==> a !in s.intersectionOps)
    {
      if t :| t in Get(s.mergedContent, a) {
        assert (a, t).0 == a && (a, t) in s.mergedContent;
      }
    }
    SummaryDescribes(r, s, heads, stop);
    SearchHasFound(r, s, heads, stop);
  }

  lemma SummaryDescribes(r: ForkPoint, s: Scan, heads: set<ForkOp>, stop: Option<ForkOp>)
    requires ScanValid(heads, s, [], stop)
    requires r.forkPointOp.Some? <==> |s.forkPointOps| == 1
    requires r.forkPointOp.Some? ==> s.forkPointOps == {r.forkPointOp.value}
    requires forall a :: a in r.contents <==>
                         Get(s.mergedContent, a) != {} && (|s.forkPointOps| == 1 ==> a !in s.intersectionOps)
    requires forall a :: a in r.terminals <==> a in r.contents && Get(s.mergedNextOps, a) == {}
    ensures Describes(r, heads)
  {
    forall f
      ensures r.forkPointOp == Some(f) <==> heads != {} && IsGreatestCommon(f, heads)
    {
      ForkPointFound(heads, s, stop, f);
    }
    forall a | IsBelowSome(a, heads)
      ensures !IsCommon(a, heads) || r.forkPointOp.None? ==> a in r.contents
    {
      ContentsCover(heads, s, stop, a);
    }
    forall a | a in r.contents
      ensures IsBelowSome(a, heads) && r.forkPointOp != Some(a) && |heads| != 1
    {
      var t :| t in Get(s.mergedContent, a);
      assert (a, t) in s.mergedContent;
      if |heads| == 1 {
        OnlyHead(heads, s, stop, a);
      }
    }
    if |heads| != 1 {
      forall t
        ensures t in r.terminals <==> IsMaximalHead(t, heads)
      {
        MaximalHeads(heads, s, stop, t);
        if IsMaximalHead(t, heads) && t in s.intersectionOps {
          IntersectionIsCommon(heads, s, t);
          SubsetIsSmaller({t}, heads);
          assert false;
        }
      }
    }
  }

  /** From the fork point it has found the source goes on to climb, for as long as there is
      one op of the intersection right above. There is none: it stays where it is. */
  lemma NoClimbFromForkPoint(s: Scan, heads: set<ForkOp>, f: ForkOp)
    requires IntersectionExact(s, heads) && f in s.forkPointOps
    ensures Get(s.intersectionNextOps, f) == {}
  {
  }

  /** Finds where the merged ops forked. */
  method FindForkPoint(mergeTargetOps: seq<ForkOp>) returns (r: ForkPoint, ghost found: Rel<ForkOp, ForkOp>)
    ensures Describes(r, set t | t in mergeTargetOps)
    ensures IsFoundIn(r, (set t | t in mergeTargetOps), found)
  {
    var declared := set t | t in mergeTargetOps;
    var toVisit := InitialVisits(mergeTargetOps);
    var s := Scan({}, {}, {}, {}, {});
    ghost var stopAt: Option<ForkOp> := None;
    assert ScanValid(declared, s, toVisit, None) by {
      forall a, t | t in declared && IsAncestor(a, t)
        ensures Covered(a, t, s, toVisit, None)
      {
        assert Visit(t, t) in toVisit;
      }
    }
    while |toVisit| > 0
      invariant ScanValid(declared, s, toVisit, stopAt)
      decreases TotalWeight(OpsOf(toVisit))
    {
      var next := toVisit[0];
      VisitUsesWeight(toVisit);
      VisitKeepsCover(declared, s, toVisit);
      VisitKeepsRest(declared, s, toVisit);
      RecordKeepsMerged(s, next, declared);
      RecordKeepsIntersection(s, next, declared);
      s := Record(s, next, declared);
      toVisit := toVisit[1..];
      var stop := toVisit == [] && |s.forkPointOps| <= 1 && next.op in s.intersectionOps;
      if !stop {
        toVisit := toVisit + VisitsOf(next.target, next.op.prevs);
      } else {
        stopAt := Some(next.op);
      }
    }
    r := Summary(s, declared, stopAt);
    found := s.mergedContent;
  }

  method InitialVisits(ops: seq<ForkOp>) returns (visits: seq<Visit>)
    ensures forall v :: v in visits <==> v.target == v.op && v.op in ops
  {
    visits := [];
    for i := 0 to |ops|
      invariant forall v :: v in visits <==> v.target == v.op && v.op in ops[..i]
    {
      visits := visits + [Visit(ops[i], ops[i])];
    }
    assert ops[..|ops|] == ops;
  }
}
