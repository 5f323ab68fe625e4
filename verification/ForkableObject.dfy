/** An object whose ops form a DAG and which keeps one of its branches, the current
    fork, selected. */
module ForkableObjects {
  import opened Hashing
  import opened MultiMaps
  import opened ForkOps

  /** What a fork-change event reports, each list in the order in which it was built. */
  datatype ForkChangeInfo = ForkChangeInfo(addedToFork: seq<ForkOp>, removedFromFork: seq<ForkOp>)

  ghost predicate NoDuplicates<T>(s: seq<T>) {
    forall i, j :: 0 <= i < j < |s| ==> s[i] != s[j]
  }

  /** Every predecessor of a listed op that is not in `known` is listed before it. */
  ghost predicate CausalOrder(ops: seq<ForkOp>, known: set<ForkOp>) {
    forall i, p :: 0 <= i < |ops| && p in ops[i].prevs && p !in known ==> p in ops[..i]
  }

  lemma CausalOrderAppend(ops: seq<ForkOp>, x: ForkOp, known: set<ForkOp>)
    requires CausalOrder(ops, known) && forall p :: p in x.prevs ==> p in ops || p in known
    ensures CausalOrder(ops + [x], known)
  {
    var more := ops + [x];
    forall i, p | 0 <= i < |more| && p in more[i].prevs && p !in known
      ensures p in more[..i]
    {
      assert more[..i] == ops[..i];
    }
  }

  /** Every successor, within `within`, of a listed op is listed before it. */
  ghost predicate ReverseCausalOrder(ops: seq<ForkOp>, within: set<ForkOp>) {
    forall i, y :: 0 <= i < |ops| && y in within && ops[i] in y.prevs ==> y in ops[..i]
  }

  lemma ReverseCausalOrderAppend(ops: seq<ForkOp>, x: ForkOp, within: set<ForkOp>)
    requires ReverseCausalOrder(ops, within) && forall y :: y in within && x in y.prevs ==> y in ops
    ensures ReverseCausalOrder(ops + [x], within)
  {
    var more := ops + [x];
    forall i, y | 0 <= i < |more| && y in within && more[i] in y.prevs
      ensures y in more[..i]
    {
      assert more[..i] == ops[..i];
    }
  }

  /** `fork` is the branch that ends in `head`, or nothing when there is no head. */
  ghost predicate IsForkOf(fork: set<ForkOp>, head: Option<ForkOp>) {
    forall x :: x in fork <==> head.Some? && IsAncestor(x, head.value)
  }

  /** `x` is needed by a fork that enters the current one at the ops of `forking`. */
  ghost predicate Kept(x: ForkOp, forking: set<ForkOp>) {
    exists f :: f in forking && IsAncestor(x, f)
  }

  lemma ForkIsPrevClosed(fork: set<ForkOp>, head: Option<ForkOp>)
    requires IsForkOf(fork, head)
    ensures PrevClosed(fork)
  {
    forall x, p | x in fork && p in x.prevs
      ensures p in fork
    {
      PrevIsAncestor(p, x);
      AncestorTransitive(p, x, head.value);
    }
  }

  // ----- eligibility -----

  /** The test for one op: it is not invalidated, the ops of other objects it depends on
      are in their forks, and its predecessors are eligible. */
  ghost predicate Passes(op: ForkOp, eligible: set<ForkOp>, invalid: set<ForkOp>, foreign: set<Hash>) {
    op !in invalid && op.deps <= foreign && forall p :: p in op.prevs ==> p in eligible
  }

  /** Eligibility, by recursion on the ancestors of an op. */
  ghost predicate Eligible(op: ForkOp, invalid: set<ForkOp>, foreign: set<Hash>) {
    op !in invalid && op.deps <= foreign && forall p :: p in op.prevs ==> Eligible(p, invalid, foreign)
  }

  /** `eligible` is a fixed point of the test on `all`. */
  ghost predicate IsEligibleSet(eligible: set<ForkOp>, all: set<ForkOp>, invalid: set<ForkOp>, foreign: set<Hash>) {
    && eligible <= all
    && forall o :: o in all ==> (o in eligible <==> Passes(o, eligible, invalid, foreign))
  }

  /** The fixed point is unique: it is the recursive definition. */
  lemma {:induction false} EligibleSetIsRecursive(eligible: set<ForkOp>, all: set<ForkOp>, invalid: set<ForkOp>,
                                                  foreign: set<Hash>, op: ForkOp)
    requires PrevClosed(all) && IsEligibleSet(eligible, all, invalid, foreign) && op in all
    ensures op in eligible <==> Eligible(op, invalid, foreign)
    decreases op
  {
    forall p | p in op.prevs
      ensures p in eligible <==> Eligible(p, invalid, foreign)
    {
      EligibleSetIsRecursive(eligible, all, invalid, foreign, p);
    }
  }

  ghost function NextOf(all: set<ForkOp>, op: ForkOp): set<ForkOp> {
    set n | n in all && op in n.prevs
  }

  /** While ops are being admitted: members pass the test, and whatever else passes it is
      on the worklist. */
  ghost predicate AdditionsPending(all: set<ForkOp>, eligible: set<ForkOp>, invalid: set<ForkOp>,
                                   foreign: set<Hash>, toCheck: set<ForkOp>)
  {
    && eligible <= all && toCheck <= all
    && (forall o :: o in eligible ==> Passes(o, eligible, invalid, foreign))
    && (forall o :: o in all && Passes(o, eligible, invalid, foreign) ==> o in eligible || o in toCheck)
  }

  lemma AdditionStep(all: set<ForkOp>, eligible: set<ForkOp>, invalid: set<ForkOp>, foreign: set<Hash>,
                     toCheck: set<ForkOp>, op: ForkOp)
    requires AdditionsPending(all, eligible, invalid, foreign, toCheck)
    requires op in toCheck && Passes(op, eligible, invalid, foreign)
    ensures AdditionsPending(all, eligible + {op}, invalid, foreign, toCheck - {op} + NextOf(all, op))
    ensures op !in eligible ==> NextOf(all, op) !! eligible + {op}
  {
  }

  lemma AdditionsDone(all: set<ForkOp>, eligible: set<ForkOp>, invalid: set<ForkOp>, foreign: set<Hash>)
    requires AdditionsPending(all, eligible, invalid, foreign, {})
    ensures IsEligibleSet(eligible, all, invalid, foreign)
  {
  }

  /** While ops are being expelled: whatever passes the test is a member, the members that
      fail it are on the worklist, and so is nothing that passes. */
  ghost predicate RemovalsPending(all: set<ForkOp>, eligible: set<ForkOp>, invalid: set<ForkOp>,
                                  foreign: set<Hash>, toRemove: set<ForkOp>)
  {
    && eligible <= all && toRemove <= all
    && (forall o :: o in all && Passes(o, eligible, invalid, foreign) ==> o in eligible)
    && (forall o :: o in eligible && !Passes(o, eligible, invalid, foreign) ==> o in toRemove)
    && (forall o :: o in toRemove ==> !Passes(o, eligible, invalid, foreign))
  }

  lemma RemovalStep(all: set<ForkOp>, eligible: set<ForkOp>, invalid: set<ForkOp>, foreign: set<Hash>,
                    toRemove: set<ForkOp>, op: ForkOp, affected: set<ForkOp>)
    requires RemovalsPending(all, eligible, invalid, foreign, toRemove) && op in toRemove
    requires affected == set n | n in NextOf(all, op) && Passes(n, eligible, invalid, foreign)
    ensures RemovalsPending(all, eligible - {op}, invalid, foreign, toRemove - {op} + affected)
    ensures affected <= eligible - {op} && (op !in eligible ==> affected == {})
  {
  }

  lemma DepAdditionStep(all: set<ForkOp>, eligible: set<ForkOp>, invalid: set<ForkOp>, foreign: set<Hash>,
                        toCheck: set<ForkOp>, dep: Hash, waiting: set<ForkOp>)
    requires AdditionsPending(all, eligible, invalid, foreign, toCheck) && toCheck !! eligible
    requires forall o :: o in waiting <==> o in all && dep in o.deps && dep !in foreign
    ensures AdditionsPending(all, eligible, invalid, foreign + {dep}, toCheck + waiting)
    ensures toCheck + waiting !! eligible
  {
  }

  lemma DepRemovalStep(all: set<ForkOp>, eligible: set<ForkOp>, invalid: set<ForkOp>, foreign: set<Hash>,
                       toRemove: set<ForkOp>, dep: Hash, affected: set<ForkOp>)
    requires RemovalsPending(all, eligible, invalid, foreign, toRemove)
    requires forall o :: o in affected <==> o in all && dep in o.deps && Passes(o, eligible, invalid, foreign)
    ensures RemovalsPending(all, eligible, invalid, foreign - {dep}, toRemove + affected)
  {
  }

  /** Some eligible op depends on one of `deps`. */
  ghost predicate HitsEligible(deps: set<Hash>, all: set<ForkOp>, invalid: set<ForkOp>, foreign: set<Hash>) {
    exists o :: o in all && o.deps * deps != {} && Eligible(o, invalid, foreign)
  }

  lemma NothingHit(eligible: set<ForkOp>, deps: set<Hash>, all: set<ForkOp>, invalid: set<ForkOp>, foreign: set<Hash>,
                   hit: set<ForkOp>)
    requires PrevClosed(all) && IsEligibleSet(eligible, all, invalid, foreign)
    requires !HitsEligible(deps, all, invalid, foreign)
    requires hit <= eligible && forall o :: o in hit ==> o.deps * deps != {}
    ensures hit == {}
  {
    forall o | o in hit
      ensures false
    {
      EligibleSetIsRecursive(eligible, all, invalid, foreign, o);
    }
  }

  /** A new op is pending, whether or not it joins those that pass. */
  lemma AddedIsPending(all: set<ForkOp>, eligible: set<ForkOp>, invalid: set<ForkOp>, foreign: set<Hash>, op: ForkOp)
    requires PrevClosed(all) && IsEligibleSet(eligible, all, invalid, foreign) && op !in all && op !in invalid
    ensures AdditionsPending(all + {op}, eligible, invalid, foreign, {op})
    ensures (forall p :: p in op.prevs ==> p in eligible) && op.deps <= foreign && op !in op.prevs ==>
              AdditionsPending(all + {op}, eligible + {op}, invalid, foreign, {op})
  {
  }

  /** The change of one op's validity is all that is pending. */
  lemma ValidityPending(eligible: set<ForkOp>, all: set<ForkOp>, before: set<ForkOp>, invalid: set<ForkOp>,
                        foreign: set<Hash>, op: ForkOp)
    requires IsEligibleSet(eligible, all, before, foreign) && op in all
    ensures op in before && invalid == before - {op} ==>
              AdditionsPending(all, eligible, invalid, foreign, {op}) && op !in eligible
    ensures invalid == before + {op} ==> RemovalsPending(all, eligible, invalid, foreign, {op})
  {
  }

  lemma RemovalsDone(all: set<ForkOp>, eligible: set<ForkOp>, invalid: set<ForkOp>, foreign: set<Hash>)
    requires RemovalsPending(all, eligible, invalid, foreign, {})
    ensures IsEligibleSet(eligible, all, invalid, foreign)
  {
  }

  // ----- terminal ops and fork choice -----

  /** No eligible op follows `op`. */
  ghost predicate IsTerminal(op: ForkOp, eligible: set<ForkOp>) {
    op in eligible && forall n :: n in eligible ==> op !in n.prevs
  }

  ghost predicate AreTerminals(terminals: set<ForkOp>, eligible: set<ForkOp>) {
    forall o :: o in terminals <==> IsTerminal(o, eligible)
  }

  /** An op that sits on a terminal op. */
  ghost predicate Uncovers(o: ForkOp, eligible: set<ForkOp>) {
    exists p :: p in o.prevs && IsTerminal(p, eligible)
  }

  /** What one update makes of the terminal ops, as coded: removed ops enter the set
      when they uncover a predecessor. */
  ghost predicate TerminalsUpdated(before: set<ForkOp>, after: set<ForkOp>, eligible: set<ForkOp>,
                                   added: set<ForkOp>, removed: set<ForkOp>)
  {
    forall o :: o in after <==>
                  && !(o in before && exists n :: n in added && o in n.prevs)
                  && (|| o in before
                      || (o in added && IsTerminal(o, eligible))
                      || (o in removed && Uncovers(o, eligible)))
  }

  lemma TerminalsAfterAdditions(base: set<ForkOp>, eligible: set<ForkOp>, before: set<ForkOp>, after: set<ForkOp>,
                                removed: set<ForkOp>)
    requires base <= eligible && AreTerminals(before, base)
    requires forall o :: o in removed ==> !Uncovers(o, eligible)
    requires TerminalsUpdated(before, after, eligible, eligible - base, removed)
    ensures AreTerminals(after, eligible) && before <= base
  {
  }

  lemma TerminalsAreAmong(terminals: set<ForkOp>, eligible: set<ForkOp>)
    requires AreTerminals(terminals, eligible)
    ensures terminals <= eligible
  {
  }

  /** Invalidating an op that was not eligible expels nothing. */
  lemma {:induction false} StaysEligible(base: set<ForkOp>, eligible: set<ForkOp>, all: set<ForkOp>,
                                         invalid: set<ForkOp>, foreign: set<Hash>, op: ForkOp, n: ForkOp)
    requires IsEligibleSet(base, all, invalid - {op}, foreign) && IsEligibleSet(eligible, all, invalid, foreign)
    requires op !in base && n in base
    ensures n in eligible
    decreases n
  {
    forall p | p in n.prevs
      ensures p in eligible
    {
      StaysEligible(base, eligible, all, invalid, foreign, op, p);
    }
  }

  /** A removal that expels eligible ops leaves one of them among the terminal ops: the one
      that no eligible op followed. */
  lemma ExpelledStaysTerminal(base: set<ForkOp>, eligible: set<ForkOp>, before: set<ForkOp>, after: set<ForkOp>,
                              removed: set<ForkOp>, o: ForkOp)
    requires AreTerminals(before, base) && TerminalsUpdated(before, after, eligible, {}, removed)
    requires o in base && o !in eligible && forall n, p :: n in eligible && p in n.prevs ==> p in eligible
    ensures !AreTerminals(after, eligible)
  {
    assert o in base - eligible;
    var m := Heaviest(base - eligible);
    forall n | n in base
      ensures m !in n.prevs
    {
      if m in n.prevs {
        PrevIsAncestor(m, n);
      }
    }
    assert m in before && m in after && !IsTerminal(m, eligible);
  }

  /** After dependencies have left their forks the terminal ops are exact if and only if no
      eligible op depends on one of them. */
  lemma TerminalsAfterLoss(base: set<ForkOp>, eligible: set<ForkOp>, all: set<ForkOp>, invalid: set<ForkOp>,
                           foreign: set<Hash>, deps: set<Hash>, before: set<ForkOp>, after: set<ForkOp>,
                           removed: set<ForkOp>)
    requires PrevClosed(all) && IsEligibleSet(base, all, invalid, foreign)
    requires IsEligibleSet(eligible, all, invalid, foreign - deps) && eligible <= base && base - eligible <= removed
    requires AreTerminals(before, base) && TerminalsUpdated(before, after, eligible, {}, removed)
    requires !HitsEligible(deps, all, invalid, foreign) ==> removed == {}
    ensures AreTerminals(after, eligible) <==> !HitsEligible(deps, all, invalid, foreign)
  {
    hide AreTerminals, TerminalsUpdated;
    if HitsEligible(deps, all, invalid, foreign) {
      var o :| o in all && o.deps * deps != {} && Eligible(o, invalid, foreign);
      EligibleSetIsRecursive(base, all, invalid, foreign, o);
      var d :| d in o.deps * deps;
      assert o in base && d !in foreign - deps && o !in eligible;
      ExpelledStaysTerminal(base, eligible, before, after, removed, o);
    } else {
      assert base == eligible by {
        forall o | o in base
          ensures o in eligible
        {
          assert o !in base - eligible;
        }
      }
      assert eligible - base == {};
      TerminalsAfterAdditions(base, eligible, before, after, {});
    }
  }

  /** After an invalidation the terminal ops come out right only if the invalidated op was
      not eligible anyway and does not sit on a terminal op. */
  lemma TerminalsAfterRemoval(base: set<ForkOp>, eligible: set<ForkOp>, all: set<ForkOp>, invalid: set<ForkOp>,
                              foreign: set<Hash>, op: ForkOp, before: set<ForkOp>, after: set<ForkOp>)
    requires IsEligibleSet(base, all, invalid - {op}, foreign) && IsEligibleSet(eligible, all, invalid, foreign)
    requires eligible <= base && AreTerminals(before, base) && op in invalid
    requires TerminalsUpdated(before, after, eligible, {}, (base - eligible) + {op})
    ensures AreTerminals(after, eligible) <==> op !in base && forall p :: p in op.prevs ==> p !in before
    ensures AreTerminals(after, eligible) ==> eligible == base && !Uncovers(op, eligible)
  {
    if op in base {
      ExpelledStaysTerminal(base, eligible, before, after, (base - eligible) + {op}, op);
    } else {
      forall n | n in base
        ensures n in eligible
      {
        StaysEligible(base, eligible, all, invalid, foreign, op, n);
      }
      assert !IsTerminal(op, eligible);
    }
  }

  /** What passes the test is determined by what has been applied. */
  lemma SameEligible(a: set<ForkOp>, b: set<ForkOp>, all: set<ForkOp>, invalid: set<ForkOp>, foreign: set<Hash>)
    requires PrevClosed(all) && IsEligibleSet(a, all, invalid, foreign) && IsEligibleSet(b, all, invalid, foreign)
    ensures a == b
  {
    forall o | o in all
      ensures o in a <==> o in b
    {
      EligibleSetIsRecursive(a, all, invalid, foreign, o);
      EligibleSetIsRecursive(b, all, invalid, foreign, o);
    }
  }

  /** The applied ops that the recursive definition picks out. */
  ghost function EligibleIn(all: set<ForkOp>, invalid: set<ForkOp>, foreign: set<Hash>): set<ForkOp> {
    set o | o in all && Eligible(o, invalid, foreign)
  }

  lemma EligibleSetIsAll(eligible: set<ForkOp>, all: set<ForkOp>, invalid: set<ForkOp>, foreign: set<Hash>)
    requires PrevClosed(all) && IsEligibleSet(eligible, all, invalid, foreign)
    ensures eligible == EligibleIn(all, invalid, foreign)
  {
    forall o | o in all
      ensures o in eligible <==> Eligible(o, invalid, foreign)
    {
      EligibleSetIsRecursive(eligible, all, invalid, foreign, o);
    }
  }

  /** From `base` the eligible ops grow to `extended` and shrink to `eligible`. No op that is
      expelled sits on a terminal op of what is left, and each terminal op that is expelled is
      followed by an op that was admitted. */
  ghost predicate KeepsTerminals(before: set<ForkOp>, base: set<ForkOp>, extended: set<ForkOp>, eligible: set<ForkOp>) {
    && (forall o :: o in extended - eligible ==> !Uncovers(o, eligible))
    && (forall o :: o in before - eligible ==> exists n :: n in extended - base && o in n.prevs)
  }

  /** After a change that admits and expels ops the terminal ops are exact if and only if that
      is the case. */
  lemma TerminalsAfterChange(base: set<ForkOp>, extended: set<ForkOp>, eligible: set<ForkOp>, before: set<ForkOp>,
                             after: set<ForkOp>)
    requires base + eligible <= extended && forall n, p :: n in base && p in n.prevs ==> p in base
    requires AreTerminals(before, base)
    requires TerminalsUpdated(before, after, eligible, extended - base, extended - eligible)
    ensures AreTerminals(after, eligible) <==> KeepsTerminals(before, base, extended, eligible)
  {
    if KeepsTerminals(before, base, extended, eligible) {
      forall o
        ensures o in after <==> IsTerminal(o, eligible)
      {
        KeptTerminal(base, extended, eligible, before, after, o);
      }
    } else {
      WrongTerminal(base, extended, eligible, before, after);
    }
  }

  lemma KeptTerminal(base: set<ForkOp>, extended: set<ForkOp>, eligible: set<ForkOp>, before: set<ForkOp>,
                     after: set<ForkOp>, o: ForkOp)
    requires base + eligible <= extended && AreTerminals(before, base)
    requires TerminalsUpdated(before, after, eligible, extended - base, extended - eligible)
    requires KeepsTerminals(before, base, extended, eligible)
    ensures o in after <==> IsTerminal(o, eligible)
  {
    assert o in before - eligible <==> o in before && o !in eligible;
    if IsTerminal(o, eligible) {
      forall n | n in extended
        ensures o !in n.prevs
      {
        if o in n.prevs {
          assert n in extended - eligible && Uncovers(n, eligible);
        }
      }
    }
  }

  lemma KeptUncoversNothing(before: set<ForkOp>, base: set<ForkOp>, extended: set<ForkOp>, eligible: set<ForkOp>)
    ensures KeepsTerminals(before, base, extended, eligible) ==>
              forall o :: o in extended - eligible ==> !Uncovers(o, eligible)
  {
    hide Uncovers;
  }

  lemma EligibleIsClosed(eligible: set<ForkOp>, all: set<ForkOp>, invalid: set<ForkOp>, foreign: set<Hash>)
    requires IsEligibleSet(eligible, all, invalid, foreign)
    ensures forall n, p :: n in eligible && p in n.prevs ==> p in eligible
  {
  }

  lemma WrongTerminal(base: set<ForkOp>, extended: set<ForkOp>, eligible: set<ForkOp>, before: set<ForkOp>,
                      after: set<ForkOp>)
    requires base + eligible <= extended && forall n, p :: n in base && p in n.prevs ==> p in base
    requires AreTerminals(before, base)
    requires TerminalsUpdated(before, after, eligible, extended - base, extended - eligible)
    requires !KeepsTerminals(before, base, extended, eligible)
    ensures !AreTerminals(after, eligible)
  {
    if o :| o in extended - eligible && Uncovers(o, eligible) {
      var p :| p in o.prevs && IsTerminal(p, eligible);
      assert o in after || (o in before && p !in after);
    } else {
      var o :| o in before - eligible && !exists n :: n in extended - base && o in n.prevs;
      assert o in after;
    }
  }

  type ForkChoiceRule = (ForkOp, ForkOp) -> bool

  /** `rule(current, other)` says that `other` should replace `current`. */
  ghost predicate IsStrictTotalOrder(rule: ForkChoiceRule) {
    && (forall a, b :: rule(a, b) ==> !rule(b, a))
    && (forall a, b :: a != b ==> rule(a, b) || rule(b, a))
    && (forall a, b, c :: rule(a, b) && rule(b, c) ==> rule(a, c))
  }

  ghost predicate BestFirst(choices: seq<ForkOp>, rule: ForkChoiceRule) {
    forall i, j :: 0 <= i < j < |choices| ==> rule(choices[j], choices[i])
  }

  /** `choices` lists `ops`, each once, best first. */
  ghost predicate IsChoiceList(choices: seq<ForkOp>, ops: set<ForkOp>, rule: ForkChoiceRule) {
    BestFirst(choices, rule) && forall o :: o in choices <==> o in ops
  }

  /** The list of choices is determined by the set of choices. */
  lemma {:induction false} ChoiceListUnique(a: seq<ForkOp>, b: seq<ForkOp>, ops: set<ForkOp>, rule: ForkChoiceRule)
    requires IsStrictTotalOrder(rule) && IsChoiceList(a, ops, rule) && IsChoiceList(b, ops, rule)
    ensures a == b
    decreases |a|
  {
    assert a != [] ==> a[0] in ops;
    assert b != [] ==> b[0] in ops;
    if a != [] {
      assert a[0] in b;
      assert a[0] == b[0];
      forall o
        ensures o in a[1..] <==> o in ops - {a[0]}
        ensures o in b[1..] <==> o in ops - {a[0]}
      {
        RestOfChoices(a, rule, o);
        RestOfChoices(b, rule, o);
      }
      ChoiceListUnique(a[1..], b[1..], ops - {a[0]}, rule);
    }
  }

  lemma RestOfChoices(a: seq<ForkOp>, rule: ForkChoiceRule, o: ForkOp)
    requires IsStrictTotalOrder(rule) && BestFirst(a, rule) && a != []
    ensures o in a[1..] <==> o in a && o != a[0]
  {
  }

  class ForkableObject {

    var allForkableOps: set<ForkOp>
    var nextForkableOps: Rel<ForkOp, ForkOp>
    var allEligibleOps: set<ForkOp>
    var unmetForkableOpDeps: Rel<ForkOp, Hash>
    var reverseUnmetForkableOpDeps: Rel<Hash, ForkOp>
    var unmetForkablePrevOps: Rel<ForkOp, ForkOp>
    var reverseUnmetForkablePrevOps: Rel<ForkOp, ForkOp>
    var allReverseForkableOpDeps: Rel<Hash, ForkOp>
    var terminalEligibleOps: set<ForkOp>
    var orderedChoices: seq<ForkOp>
    const forkChoiceRule: Option<ForkChoiceRule>
    /** The ops with an active cascaded invalidation. */
    var invalidOps: set<ForkOp>
    /** The ops of other objects that are in their objects' current fork. */
    var foreignForks: set<Hash>
    var allCurrentForkOps: set<ForkOp>
    var currentForkTerminalOp: Option<ForkOp>

    /** Applied ops are closed under predecessors and `nextForkableOps` inverts them. */
    ghost predicate GraphValid()
      reads `allForkableOps, `nextForkableOps
    {
      && PrevClosed(allForkableOps)
      && forall p, o :: (p, o) in nextForkableOps <==> o in allForkableOps && p in o.prevs
    }

    ghost predicate CurrentForkValid()
      reads `allForkableOps, `allCurrentForkOps, `currentForkTerminalOp
    {
      && (currentForkTerminalOp.Some? ==> currentForkTerminalOp.value in allForkableOps)
      && IsForkOf(allCurrentForkOps, currentForkTerminalOp)
    }

    /** Every predecessor of a walked op was met again later in the walk, is still to be
        checked, or is where the walk entered the current fork. */
    static ghost predicate MetLater(walked: seq<ForkOp>, toCheck: seq<ForkOp>, forking: set<ForkOp>) {
      forall i, p :: 0 <= i < |walked| && p in walked[i].prevs ==>
                       p in walked[i + 1..] || p in toCheck || p in forking
    }

    static lemma MetLaterStep(walked: seq<ForkOp>, toCheck: seq<ForkOp>, forking: set<ForkOp>)
      requires toCheck != [] && MetLater(walked, toCheck, forking)
      ensures MetLater(walked + [toCheck[0]], toCheck[1..] + toCheck[0].prevs, forking)
      ensures MetLater(walked, toCheck[1..], forking + {toCheck[0]})
    {
      var next := walked + [toCheck[0]];
      forall i, p | 0 <= i < |next| && p in next[i].prevs
        ensures p in next[i + 1..] || p in toCheck[1..] + toCheck[0].prevs || p in forking
      {
        if i < |walked| {
          assert next[i + 1..] == walked[i + 1..] + [toCheck[0]];
        }
      }
    }

    lemma CurrentForkIsApplied()
      requires GraphValid() && CurrentForkValid()
      ensures allCurrentForkOps <= allForkableOps
    {
      forall x | x in allCurrentForkOps
        ensures x in allForkableOps
      {
        ClosedHasAncestors(allForkableOps, x, currentForkTerminalOp.value);
      }
    }

    lemma KeptInFork(x: ForkOp, forking: set<ForkOp>)
      requires CurrentForkValid() && forking <= allCurrentForkOps && Kept(x, forking)
      ensures x in allCurrentForkOps
    {
      var f :| f in forking && IsAncestor(x, f);
      AncestorTransitive(x, f, currentForkTerminalOp.value);
    }

    lemma InitiallyPending(forking: set<ForkOp>, toCheck: seq<ForkOp>)
      requires CurrentForkValid()
      requires currentForkTerminalOp.Some? ==> currentForkTerminalOp.value in toCheck
      ensures RemovalPending(allCurrentForkOps, forking, toCheck, [])
    {
      forall x | x in allCurrentForkOps && x !in toCheck
        ensures exists y :: y in allCurrentForkOps && x in y.prevs
      {
        var y := LastStep(x, currentForkTerminalOp.value);
      }
    }

    method ToAddToCurrentFork(newHead: ForkOp) returns (newForkOps: seq<ForkOp>, forking: set<ForkOp>)
      requires PrevClosed(allCurrentForkOps)
      ensures NoDuplicates(newForkOps) && CausalOrder(newForkOps, allCurrentForkOps)
      ensures forall x :: x in newForkOps <==> IsAncestor(x, newHead) && x !in allCurrentForkOps
      ensures forall x :: x in forking ==> x in allCurrentForkOps && IsAncestor(x, newHead)
      ensures forall x, y :: y in newForkOps && x in y.prevs ==> x in newForkOps || x in forking
      ensures newHead in allCurrentForkOps ==> newHead in forking
    {
      var newForkOpsQueue: seq<ForkOp> := [];
      forking := {};
      var toCheck := [newHead];
      assert IsAncestor(newHead, newHead);
      while |toCheck| > 0
        invariant forall x :: x in toCheck || x in newForkOpsQueue || x in forking ==> IsAncestor(x, newHead)
        invariant forall x :: x in newForkOpsQueue ==> x !in allCurrentForkOps
        invariant forking <= allCurrentForkOps
        invariant newHead in toCheck || newHead in newForkOpsQueue || newHead in forking
        invariant MetLater(newForkOpsQueue, toCheck, forking)
        decreases TotalWeight(toCheck)
      {
        var op := toCheck[0];
        DequeueWeight(toCheck);
        MetLaterStep(newForkOpsQueue, toCheck, forking);
        toCheck := toCheck[1..];
        if op !in allCurrentForkOps {
          newForkOpsQueue := newForkOpsQueue + [op];
          toCheck := toCheck + op.prevs;
          forall p | p in op.prevs
            ensures IsAncestor(p, newHead)
          {
            PrevIsAncestor(p, op);
            AncestorTransitive(p, op, newHead);
          }
        } else {
          forking := forking + {op};
        }
      }
      newForkOps := LastAppearancesReversed(newForkOpsQueue, forking);
      ghost var reached := (set x | x in newForkOps) + allCurrentForkOps;
      forall x | IsAncestor(x, newHead)
        ensures x in reached
      {
        ClosedHasAncestors(reached, x, newHead);
      }
    }

    /** The walked ops from last to first, each one where it was met last. */
    method LastAppearancesReversed(walked: seq<ForkOp>, ghost forking: set<ForkOp>) returns (ops: seq<ForkOp>)
      requires MetLater(walked, [], forking)
      ensures forall x :: x in ops <==> x in walked
      ensures NoDuplicates(ops) && CausalOrder(ops, forking)
      ensures forall x, y :: y in ops && x in y.prevs ==> x in ops || x in forking
    {
      ops := [];
      var i := |walked|;
      while i > 0
        invariant 0 <= i <= |walked|
        invariant forall x :: x in ops <==> x in walked[i..]
        invariant NoDuplicates(ops) && CausalOrder(ops, forking)
      {
        i := i - 1;
        if walked[i] !in ops {
          CausalOrderAppend(ops, walked[i], forking);
          ops := ops + [walked[i]];
        }
      }
      assert walked[0..] == walked;
    }

    /** Ops of the current fork that must go but have not been removed yet are queued, or
        have a successor in the current fork that is still there. */
    static ghost predicate RemovalPending(fork: set<ForkOp>, forking: set<ForkOp>, toCheck: seq<ForkOp>,
                                          removed: seq<ForkOp>)
    {
      forall x :: x in fork && !Kept(x, forking) && x !in removed ==>
                    x in toCheck || exists y :: y in fork && x in y.prevs && y !in removed
    }

    static lemma RemovalPendingStep(fork: set<ForkOp>, forking: set<ForkOp>, toCheck: seq<ForkOp>,
                                    removed: seq<ForkOp>, op: ForkOp)
      requires RemovalPending(fork, forking, toCheck, removed)
      ensures RemovalPending(fork, forking, toCheck + op.prevs, removed + [op])
    {
      forall x | x in fork && !Kept(x, forking) && x !in removed + [op]
        ensures x in toCheck + op.prevs ||
                exists y :: y in fork && x in y.prevs && y !in removed + [op]
      {
        if x !in toCheck {
          var y :| y in fork && x in y.prevs && y !in removed;
          assert y == op || y !in removed + [op];
        }
      }
    }

    /** An empty queue means that nothing is left to remove: the heaviest op left would
        have a heavier one above it. */
    static lemma RemovalComplete(fork: set<ForkOp>, forking: set<ForkOp>, removed: seq<ForkOp>)
      requires RemovalPending(fork, forking, [], removed)
      ensures forall x :: x in fork && !Kept(x, forking) ==> x in removed
    {
      var left := set x | x in fork && !Kept(x, forking) && x !in removed;
      if left != {} {
        var x := Heaviest(left);
        var y :| y in fork && x in y.prevs && y !in removed;
        PrevIsAncestor(x, y);
        if Kept(y, forking) {
          var f :| f in forking && IsAncestor(y, f);
          AncestorTransitive(x, y, f);
        }
        assert false;
      }
      assert forall x :: x in fork && !Kept(x, forking) && x !in removed ==> x in left;
    }

    /** An op that a kept op sits on is never free to go. */
    static lemma KeptHasKeptNext(x: ForkOp, forking: set<ForkOp>) returns (y: ForkOp)
      requires Kept(x, forking) && x !in forking
      ensures x in y.prevs && Kept(y, forking)
    {
      var f :| f in forking && IsAncestor(x, f);
      y := LastStep(x, f);
    }

    /** Whether some op of the current fork that is not being removed follows from `op`. */
    method FindRemainingNextOps(op: ForkOp, opsToRemove: seq<ForkOp>) returns (found: bool)
      requires GraphValid()
      ensures found <==> exists y :: y in allCurrentForkOps && y in allForkableOps && op in y.prevs && y !in opsToRemove
    {
      found := false;
      var nextOps := Get(nextForkableOps, op);
      while nextOps != {}
        invariant forall y :: y in nextOps ==> (op, y) in nextForkableOps
        invariant forall y :: (op, y) in nextForkableOps && y !in nextOps ==>
                                y !in allCurrentForkOps || y in opsToRemove
        decreases |nextOps|
      {
        var nextOp :| nextOp in nextOps;
        nextOps := nextOps - {nextOp};
        if nextOp in allCurrentForkOps && nextOp !in opsToRemove {
          found := true;
          break;
        }
      }
    }

    method ToRemoveFromCurrentFork(newForking: set<ForkOp>) returns (opsToRemove: seq<ForkOp>)
      requires GraphValid() && CurrentForkValid()
      requires newForking <= allCurrentForkOps
      ensures NoDuplicates(opsToRemove) && ReverseCausalOrder(opsToRemove, allCurrentForkOps)
      ensures forall x :: x in opsToRemove <==> x in allCurrentForkOps && !Kept(x, newForking)
    {
      ForkIsPrevClosed(allCurrentForkOps, currentForkTerminalOp);
      CurrentForkIsApplied();
      var toCheck := if currentForkTerminalOp.Some? then [currentForkTerminalOp.value] else [];
      opsToRemove := [];
      InitiallyPending(newForking, toCheck);
      while |toCheck| > 0
        invariant forall x :: x in toCheck || x in opsToRemove ==> x in allCurrentForkOps
        invariant forall x :: x in opsToRemove ==> !Kept(x, newForking)
        invariant NoDuplicates(opsToRemove) && ReverseCausalOrder(opsToRemove, allCurrentForkOps)
        invariant RemovalPending(allCurrentForkOps, newForking, toCheck, opsToRemove)
        decreases TotalWeight(toCheck)
      {
        var op := toCheck[0];
        DequeueWeight(toCheck);
        if op !in newForking {
          var foundRemainingNextOps := FindRemainingNextOps(op, opsToRemove);
          if !foundRemainingNextOps {
            if Kept(op, newForking) {
              var y := KeptHasKeptNext(op, newForking);
              KeptInFork(y, newForking);
              assert false;
            }
            RemovalPendingStep(allCurrentForkOps, newForking, toCheck, opsToRemove, op);
            if op !in opsToRemove {
              ReverseCausalOrderAppend(opsToRemove, op, allCurrentForkOps);
              opsToRemove := opsToRemove + [op];
            }
            toCheck := toCheck[1..] + op.prevs;
          } else {
            toCheck := toCheck[1..];
          }
        } else {
          assert IsAncestor(op, op) && Kept(op, newForking);
          toCheck := toCheck[1..];
        }
      }
      RemovalComplete(allCurrentForkOps, newForking, opsToRemove);
    }

    /** For an op of the current fork, being kept is being below the new head. */
    lemma KeptIsBelowNewHead(x: ForkOp, d: ForkOp, newForkOps: seq<ForkOp>, forking: set<ForkOp>)
      requires x in allCurrentForkOps && IsAncestor(x, d)
      requires d in newForkOps || d in forking
      requires forall y :: y in newForkOps ==> y !in allCurrentForkOps
      requires forall y, z :: y in newForkOps && z in y.prevs ==> z in newForkOps || z in forking
      ensures Kept(x, forking)
      decreases d
    {
    }

    lemma KeptIsUpToNewHead(head: ForkOp, newForkOps: seq<ForkOp>, forking: set<ForkOp>)
      requires forall x :: x in newForkOps <==> IsAncestor(x, head) && x !in allCurrentForkOps
      requires forall x :: x in forking ==> x in allCurrentForkOps && IsAncestor(x, head)
      requires forall x, y :: y in newForkOps && x in y.prevs ==> x in newForkOps || x in forking
      requires head in allCurrentForkOps ==> head in forking
      ensures forall x :: x in allCurrentForkOps ==> (Kept(x, forking) <==> IsAncestor(x, head))
    {
      assert IsAncestor(head, head);
      forall x | x in allCurrentForkOps
        ensures Kept(x, forking) <==> IsAncestor(x, head)
      {
        if IsAncestor(x, head) {
          KeptIsBelowNewHead(x, head, newForkOps, forking);
        }
        if f :| f in forking && IsAncestor(x, f) {
          AncestorTransitive(x, f, head);
        }
      }
    }

    /** Moves the head. The current fork becomes exactly the branch that ends in the new
        head, and the event lists exactly what entered it and what left it, each in an
        order in which it can be replayed. */
    method SetCurrentForkTerminalOpTo(head: Option<ForkOp>) returns (change: Option<ForkChangeInfo>)
      requires GraphValid() && CurrentForkValid()
      requires head.Some? ==> head.value in allForkableOps
      modifies `allCurrentForkOps, `currentForkTerminalOp
      ensures CurrentForkValid() && currentForkTerminalOp == head
      ensures change.None? <==> head == old(currentForkTerminalOp)
      ensures change.None? ==> allCurrentForkOps == old(allCurrentForkOps)
      ensures change.Some? ==>
                var ForkChangeInfo(added, removed) := change.value;
                && (set x | x in added) == allCurrentForkOps - old(allCurrentForkOps)
                && (set x | x in removed) == old(allCurrentForkOps) - allCurrentForkOps
                && NoDuplicates(added) && CausalOrder(added, old(allCurrentForkOps))
                && NoDuplicates(removed) && ReverseCausalOrder(removed, old(allCurrentForkOps))
    {
      hide PrevClosed, IsAncestor, ReverseCausalOrder;
      change := None;
      if head != currentForkTerminalOp {
        ForkIsPrevClosed(allCurrentForkOps, currentForkTerminalOp);
        var newForkOps: seq<ForkOp>, forking: set<ForkOp> := [], {};
        if head.Some? {
          newForkOps, forking := ToAddToCurrentFork(head.value);
        }
        var toRemove := ToRemoveFromCurrentFork(forking);
        if head.Some? {
          KeptIsUpToNewHead(head.value, newForkOps, forking);
        }
        allCurrentForkOps := allCurrentForkOps - (set x | x in toRemove) + (set x | x in newForkOps);
        currentForkTerminalOp := head;
        change := Some(ForkChangeInfo(newForkOps, toRemove));
      }
    }

    // ----- eligibility -----

    predicate IsForkEligible(op: ForkOp)
      reads `unmetForkableOpDeps, `unmetForkablePrevOps, `invalidOps
    {
      && !HasKey(unmetForkableOpDeps, op)
      && !HasKey(unmetForkablePrevOps, op)
      && op !in invalidOps
    }

    ghost predicate PrevsExact()
      reads `allForkableOps, `allEligibleOps, `unmetForkablePrevOps, `reverseUnmetForkablePrevOps
    {
      && (forall o, p :: (o, p) in unmetForkablePrevOps <==>
                         o in allForkableOps && p in o.prevs && p !in allEligibleOps)
      && (forall o, p :: (p, o) in reverseUnmetForkablePrevOps <==> (o, p) in unmetForkablePrevOps)
    }

    ghost predicate DepsExactFor(all: set<ForkOp>)
      reads `unmetForkableOpDeps, `reverseUnmetForkableOpDeps, `allReverseForkableOpDeps, `foreignForks
    {
      && (forall o, d :: (o, d) in unmetForkableOpDeps <==> o in all && d in o.deps && d !in foreignForks)
      && (forall o, d :: (d, o) in reverseUnmetForkableOpDeps <==> (o, d) in unmetForkableOpDeps)
      && (forall o, d :: (d, o) in allReverseForkableOpDeps <==> o in all && d in o.deps)
    }

    ghost predicate DepsExact()
      reads `allForkableOps, `unmetForkableOpDeps, `reverseUnmetForkableOpDeps, `allReverseForkableOpDeps, `foreignForks
    {
      DepsExactFor(allForkableOps)
    }

    /** What eligibility of an applied op comes down to while the maps are exact. */
    lemma EligibleMeaning(op: ForkOp)
      requires PrevsExact() && DepsExact() && op in allForkableOps
      ensures IsForkEligible(op) <==> Passes(op, allEligibleOps, invalidOps, foreignForks)
    {
    }

    method MarkPrevOpAsMet(op: ForkOp) returns (nextOps: set<ForkOp>)
      modifies `unmetForkablePrevOps, `reverseUnmetForkablePrevOps
      ensures forall n :: n in nextOps <==> (op, n) in nextForkableOps
      ensures forall n, p :: (n, p) in unmetForkablePrevOps <==>
                             (n, p) in old(unmetForkablePrevOps) && !(p == op && n in nextOps)
      ensures forall n, p :: (p, n) in reverseUnmetForkablePrevOps <==>
                             (p, n) in old(reverseUnmetForkablePrevOps) && !(p == op && n in nextOps)
    {
      nextOps := Get(nextForkableOps, op);
      var todo := nextOps;
      while todo != {}
        invariant todo <= nextOps
        invariant forall n, p :: (n, p) in unmetForkablePrevOps <==>
                                 (n, p) in old(unmetForkablePrevOps) && !(p == op && n in nextOps - todo)
        invariant forall n, p :: (p, n) in reverseUnmetForkablePrevOps <==>
                                 (p, n) in old(reverseUnmetForkablePrevOps) && !(p == op && n in nextOps - todo)
        decreases |todo|
      {
        var nextOp :| nextOp in todo;
        todo := todo - {nextOp};
        unmetForkablePrevOps := unmetForkablePrevOps - {(nextOp, op)};
        reverseUnmetForkablePrevOps := reverseUnmetForkablePrevOps - {(op, nextOp)};
      }
    }

    method MarkPrevOpAsUnmet(op: ForkOp) returns (affected: set<ForkOp>)
      modifies `unmetForkablePrevOps, `reverseUnmetForkablePrevOps
      ensures forall n :: n in affected <==> (op, n) in nextForkableOps && old(IsForkEligible(n))
      ensures forall n, p :: (n, p) in unmetForkablePrevOps <==>
                             (n, p) in old(unmetForkablePrevOps) || (p == op && (op, n) in nextForkableOps)
      ensures forall n, p :: (p, n) in reverseUnmetForkablePrevOps <==>
                             (p, n) in old(reverseUnmetForkablePrevOps) || (p == op && (op, n) in nextForkableOps)
    {
      var nextOps := Get(nextForkableOps, op);
      var todo := nextOps;
      affected := {};
      while todo != {}
        invariant todo <= nextOps
        invariant forall n :: n in affected <==> n in nextOps - todo && old(IsForkEligible(n))
        invariant forall n, p :: (n, p) in unmetForkablePrevOps <==>
                                 (n, p) in old(unmetForkablePrevOps) || (p == op && n in nextOps - todo)
        invariant forall n, p :: (p, n) in reverseUnmetForkablePrevOps <==>
                                 (p, n) in old(reverseUnmetForkablePrevOps) || (p == op && n in nextOps - todo)
        decreases |todo|
      {
        var nextOp :| nextOp in todo;
        SameKey(nextOp, unmetForkablePrevOps, old(unmetForkablePrevOps));
        if IsForkEligible(nextOp) {
          affected := affected + {nextOp};
        }
        todo := todo - {nextOp};
        unmetForkablePrevOps := unmetForkablePrevOps + {(nextOp, op)};
        reverseUnmetForkablePrevOps := reverseUnmetForkablePrevOps + {(op, nextOp)};
      }
    }

    static lemma SameKey<V(!new)>(n: ForkOp, r: Rel<ForkOp, V>, s: Rel<ForkOp, V>)
      requires forall p :: (n, p) in r <==> (n, p) in s
      ensures HasKey(r, n) <==> HasKey(s, n)
    {
      if HasKey(r, n) {
        var e :| e in r && e.0 == n;
        assert (n, e.1) in s;
      }
      if HasKey(s, n) {
        var e :| e in s && e.0 == n;
        assert (n, e.1) in r;
      }
    }

    ghost predicate EligibleExact()
      reads `allForkableOps, `allEligibleOps, `invalidOps, `foreignForks
    {
      IsEligibleSet(allEligibleOps, allForkableOps, invalidOps, foreignForks)
    }

    method CheckForAddition(op: ForkOp, ghost toCheck: set<ForkOp>) returns (admitted: bool, nextOps: set<ForkOp>)
      requires GraphValid() && PrevsExact() && DepsExact()
      requires AdditionsPending(allForkableOps, allEligibleOps, invalidOps, foreignForks, toCheck) && op in toCheck
      modifies `allEligibleOps, `unmetForkablePrevOps, `reverseUnmetForkablePrevOps
      ensures PrevsExact()
      ensures AdditionsPending(allForkableOps, allEligibleOps, invalidOps, foreignForks, toCheck - {op} + nextOps)
      ensures !admitted ==> allEligibleOps == old(allEligibleOps) && nextOps == {} && op !in allEligibleOps
      ensures admitted ==> allEligibleOps == old(allEligibleOps) + {op} && nextOps == NextOf(allForkableOps, op)
      ensures admitted && op !in old(allEligibleOps) ==> nextOps !! allEligibleOps
    {
      EligibleMeaning(op);
      admitted := IsForkEligible(op);
      nextOps := {};
      if admitted {
        AdditionStep(allForkableOps, allEligibleOps, invalidOps, foreignForks, toCheck, op);
        nextOps := MarkPrevOpAsMet(op);
        allEligibleOps := allEligibleOps + {op};
        assert nextOps == NextOf(allForkableOps, op);
      }
      assert toCheck - {op} + {} == toCheck - {op};
    }

    /** Admits every op that has become eligible. `base` is the set of eligible ops before
        the change being processed; exactly the newly eligible ops are reported. */
    method CascadeEligibleOpAdditions(toCheckForAddition: set<ForkOp>, ghost base: set<ForkOp>)
      returns (addedEligibleOps: set<ForkOp>)
      requires GraphValid() && PrevsExact() && DepsExact()
      requires AdditionsPending(allForkableOps, allEligibleOps, invalidOps, foreignForks, toCheckForAddition)
      requires base !! toCheckForAddition && base <= allEligibleOps <= base + toCheckForAddition
      requires forall o :: o in allEligibleOps - base ==> NextOf(allForkableOps, o) == {}
      modifies `allEligibleOps, `unmetForkablePrevOps, `reverseUnmetForkablePrevOps
      ensures PrevsExact() && EligibleExact()
      ensures base <= allEligibleOps && addedEligibleOps == allEligibleOps - base
    {
      var toCheck := toCheckForAddition;
      addedEligibleOps := {};
      assert toCheck <= allForkableOps;
      hide GraphValid, PrevsExact, DepsExact, AdditionsPending, Passes, IsEligibleSet, NextOf;
      while toCheck != {}
        invariant PrevsExact()
        invariant AdditionsPending(allForkableOps, allEligibleOps, invalidOps, foreignForks, toCheck)
        invariant toCheck <= allForkableOps && base !! toCheck
        invariant addedEligibleOps <= allEligibleOps - base
        invariant base <= allEligibleOps <= base + addedEligibleOps + toCheck
        invariant forall o :: o in allEligibleOps * toCheck ==> NextOf(allForkableOps, o) == {}
        decreases allForkableOps - allEligibleOps, toCheck
      {
        var opHash :| opHash in toCheck;
        ghost var wasEligible := opHash in allEligibleOps;
        var admitted, nextOps := CheckForAddition(opHash, toCheck);
        toCheck := toCheck - {opHash} + nextOps;
        if admitted {
          addedEligibleOps := addedEligibleOps + {opHash};
        }
      }
      AdditionsDone(allForkableOps, allEligibleOps, invalidOps, foreignForks);
    }

    method Expel(op: ForkOp, ghost toRemove: set<ForkOp>) returns (affected: set<ForkOp>)
      requires GraphValid() && PrevsExact() && DepsExact()
      requires RemovalsPending(allForkableOps, allEligibleOps, invalidOps, foreignForks, toRemove) && op in toRemove
      modifies `allEligibleOps, `unmetForkablePrevOps, `reverseUnmetForkablePrevOps
      ensures PrevsExact()
      ensures RemovalsPending(allForkableOps, allEligibleOps, invalidOps, foreignForks, toRemove - {op} + affected)
      ensures allEligibleOps == old(allEligibleOps) - {op}
      ensures affected <= allEligibleOps && (op !in old(allEligibleOps) ==> affected == {})
    {
      forall n | n in allForkableOps
        ensures IsForkEligible(n) <==> Passes(n, allEligibleOps, invalidOps, foreignForks)
      {
        EligibleMeaning(n);
      }
      ghost var failing := set n | n in NextOf(allForkableOps, op) &&
                                   Passes(n, allEligibleOps, invalidOps, foreignForks);
      RemovalStep(allForkableOps, allEligibleOps, invalidOps, foreignForks, toRemove, op, failing);
      allEligibleOps := allEligibleOps - {op};
      affected := MarkPrevOpAsUnmet(op);
      assert affected == failing;
    }

    /** Expels every op that has stopped being eligible. */
    method CascadeEligibleOpRemovals(toRemove: set<ForkOp>) returns (removedEligibleOps: set<ForkOp>)
      requires GraphValid() && PrevsExact() && DepsExact()
      requires RemovalsPending(allForkableOps, allEligibleOps, invalidOps, foreignForks, toRemove)
      modifies `allEligibleOps, `unmetForkablePrevOps, `reverseUnmetForkablePrevOps
      ensures PrevsExact() && EligibleExact()
      ensures allEligibleOps <= old(allEligibleOps)
      ensures removedEligibleOps == (old(allEligibleOps) - allEligibleOps) + toRemove
      ensures toRemove == {} ==> allEligibleOps == old(allEligibleOps)
    {
      var todo := toRemove;
      removedEligibleOps := {};
      hide GraphValid, PrevsExact, DepsExact, RemovalsPending, Passes, IsEligibleSet;
      while todo != {}
        invariant PrevsExact()
        invariant RemovalsPending(allForkableOps, allEligibleOps, invalidOps, foreignForks, todo)
        invariant allEligibleOps <= old(allEligibleOps) && todo <= toRemove + allEligibleOps
        invariant toRemove <= removedEligibleOps + todo
        invariant toRemove == {} ==> todo == {} && allEligibleOps == old(allEligibleOps)
        invariant old(allEligibleOps) - allEligibleOps <= removedEligibleOps
        invariant removedEligibleOps <= (old(allEligibleOps) - allEligibleOps) + toRemove
        decreases allEligibleOps, todo
      {
        var opHash :| opHash in todo;
        var affected := Expel(opHash, todo);
        todo := todo - {opHash} + affected;
        removedEligibleOps := removedEligibleOps + {opHash};
      }
      RemovalsDone(allForkableOps, allEligibleOps, invalidOps, foreignForks);
    }

    // ----- terminal ops and fork choice -----

    method IsForkEligibleTerminalOp(op: ForkOp) returns (terminal: bool)
      requires GraphValid() && PrevsExact() && DepsExact() && EligibleExact() && op in allForkableOps
      ensures terminal <==> IsTerminal(op, allEligibleOps)
    {
      EligibleMeaning(op);
      if !IsForkEligible(op) {
        return false;
      }
      terminal := true;
      var nextOps := Get(nextForkableOps, op);
      while nextOps != {}
        invariant forall n :: n in nextOps ==> (op, n) in nextForkableOps
        invariant forall n :: (op, n) in nextForkableOps && n !in nextOps ==> n !in allEligibleOps
        decreases |nextOps|
      {
        var n :| n in nextOps;
        EligibleMeaning(n);
        if IsForkEligible(n) {
          return false;
        }
        nextOps := nextOps - {n};
      }
    }

    method TerminalsAmong(added: set<ForkOp>) returns (terminals: set<ForkOp>)
      requires GraphValid() && PrevsExact() && DepsExact() && EligibleExact() && added <= allForkableOps
      ensures forall o :: o in terminals <==> o in added && IsTerminal(o, allEligibleOps)
    {
      terminals := {};
      var todo := added;
      while todo != {}
        invariant todo <= added
        invariant forall o :: o in terminals <==> o in added - todo && IsTerminal(o, allEligibleOps)
        decreases |todo|
      {
        var op :| op in todo;
        todo := todo - {op};
        var terminal := IsForkEligibleTerminalOp(op);
        if terminal {
          terminals := terminals + {op};
        }
      }
    }

    method UncoveringAmong(removed: set<ForkOp>) returns (uncovering: set<ForkOp>)
      requires GraphValid() && PrevsExact() && DepsExact() && EligibleExact() && removed <= allForkableOps
      ensures forall o :: o in uncovering <==> o in removed && Uncovers(o, allEligibleOps)
    {
      uncovering := {};
      var todo := removed;
      while todo != {}
        invariant todo <= removed
        invariant forall o :: o in uncovering <==> o in removed - todo && Uncovers(o, allEligibleOps)
        decreases |todo|
      {
        var op :| op in todo;
        todo := todo - {op};
        var uncovers := UncoversTerminal(op);
        if uncovers {
          uncovering := uncovering + {op};
        }
      }
    }

    method UpdateEligibleTerminalOps(added: set<ForkOp>, removed: set<ForkOp>)
      returns (addedTerminals: set<ForkOp>, removedTerminals: set<ForkOp>)
      requires GraphValid() && PrevsExact() && DepsExact() && EligibleExact()
      requires added + removed <= allForkableOps
      modifies `terminalEligibleOps
      ensures TerminalsUpdated(old(terminalEligibleOps), terminalEligibleOps, allEligibleOps, added, removed)
      ensures addedTerminals <= added + removed
      ensures forall o :: o in addedTerminals <==>
                (o in added && IsTerminal(o, allEligibleOps)) || (o in removed && Uncovers(o, allEligibleOps))
      ensures forall o :: o in removedTerminals <==>
                o in old(terminalEligibleOps) && exists n :: n in added && o in n.prevs
      ensures terminalEligibleOps == old(terminalEligibleOps) + addedTerminals - removedTerminals
      ensures removedTerminals <= old(terminalEligibleOps)
    {
      var newTerminals := TerminalsAmong(added);
      removedTerminals := set n, p | n in added && p in n.prevs && p in terminalEligibleOps :: p;
      var uncovering := UncoveringAmong(removed);
      addedTerminals := newTerminals + uncovering;
      terminalEligibleOps := terminalEligibleOps + addedTerminals - removedTerminals;
    }

    method UncoversTerminal(op: ForkOp) returns (found: bool)
      requires GraphValid() && PrevsExact() && DepsExact() && EligibleExact() && op in allForkableOps
      ensures found <==> Uncovers(op, allEligibleOps)
    {
      found := false;
      for i := 0 to |op.prevs|
        invariant found <==> exists p :: p in op.prevs[..i] && IsTerminal(p, allEligibleOps)
      {
        assert op.prevs[i] in op.prevs;
        var terminal := IsForkEligibleTerminalOp(op.prevs[i]);
        found := found || terminal;
      }
      assert op.prevs[..|op.prevs|] == op.prevs;
    }

    ghost predicate ChoicesValid()
      reads `allForkableOps, `terminalEligibleOps, `orderedChoices
    {
      terminalEligibleOps <= allForkableOps && forall o :: o in orderedChoices ==> o in allForkableOps
    }

    static method RemoveChoices(choices: seq<ForkOp>, toRemove: set<ForkOp>, ghost rule: ForkChoiceRule)
      returns (remaining: seq<ForkOp>)
      ensures forall o :: o in remaining <==> o in choices && o !in toRemove
      ensures BestFirst(choices, rule) ==> BestFirst(remaining, rule)
    {
      remaining := [];
      for i := 0 to |choices|
        invariant forall o :: o in remaining <==> o in choices[..i] && o !in toRemove
        invariant BestFirst(choices, rule) ==> BestFirst(remaining, rule)
      {
        assert BestFirst(choices, rule) ==> forall o :: o in choices[..i] ==> rule(choices[i], o);
        if choices[i] !in toRemove {
          remaining := remaining + [choices[i]];
        }
      }
    }

    static method InsertChoice(choices: seq<ForkOp>, op: ForkOp, rule: ForkChoiceRule) returns (more: seq<ForkOp>)
      ensures forall o :: o in more <==> o in choices || o == op
      ensures exists i :: 0 <= i <= |choices| && more == choices[..i] + [op] + choices[i..] &&
                          (i < |choices| ==> rule(choices[i], op)) && forall j :: 0 <= j < i ==> !rule(choices[j], op)
      ensures IsStrictTotalOrder(rule) && BestFirst(choices, rule) && op !in choices ==> BestFirst(more, rule)
    {
      var i := 0;
      while i < |choices| && !rule(choices[i], op)
        invariant 0 <= i <= |choices|
        invariant forall j :: 0 <= j < i ==> !rule(choices[j], op)
      {
        i := i + 1;
      }
      more := choices[..i] + [op] + choices[i..];
      assert forall o :: o in choices ==> o in choices[..i] || o in choices[i..];
    }

    static method UpdateChoices(choices: seq<ForkOp>, toAdd: set<ForkOp>, toRemove: set<ForkOp>, rule: ForkChoiceRule)
      returns (more: seq<ForkOp>)
      ensures forall o :: o in more <==> (o in choices && o !in toRemove) || o in toAdd
      ensures IsStrictTotalOrder(rule) && BestFirst(choices, rule) && (forall o :: o in toAdd ==> o !in choices) ==>
                BestFirst(more, rule)
    {
      more := RemoveChoices(choices, toRemove, rule);
      ghost var fromHere :=
        IsStrictTotalOrder(rule) && BestFirst(choices, rule) && forall o :: o in toAdd ==> o !in choices;
      var todo := toAdd;
      while todo != {}
        invariant todo <= toAdd
        invariant forall o :: o in more <==> (o in choices && o !in toRemove) || o in toAdd - todo
        invariant fromHere ==> BestFirst(more, rule)
        decreases |todo|
      {
        var op :| op in todo;
        todo := todo - {op};
        more := InsertChoice(more, op, rule);
      }
    }

    /** Fails, as the source does, when the object has no rule. Otherwise the head becomes
        the first choice. */
    method ApplyForkChoiceRule(choicesToAdd: set<ForkOp>, choicesToRemove: set<ForkOp>) returns (ok: bool)
      requires GraphValid() && CurrentForkValid() && ChoicesValid() && choicesToAdd <= allForkableOps
      modifies `orderedChoices, `allCurrentForkOps, `currentForkTerminalOp
      ensures CurrentForkValid() && ChoicesValid()
      ensures ok <==> forkChoiceRule.Some?
      ensures !ok ==> unchanged(this)
      ensures ok ==> currentForkTerminalOp == if orderedChoices == [] then None else Some(orderedChoices[0])
      ensures ok ==> forall o :: o in orderedChoices <==>
                (o in old(orderedChoices) && o !in choicesToRemove) || o in choicesToAdd
      ensures ok && IsStrictTotalOrder(forkChoiceRule.value) ==>
                forall ops :: IsChoiceList(old(orderedChoices), ops, forkChoiceRule.value) && choicesToAdd !! ops ==>
                  IsChoiceList(orderedChoices, ops - choicesToRemove + choicesToAdd, forkChoiceRule.value)
    {
      if forkChoiceRule.None? {
        return false;
      }
      ok := true;
      orderedChoices := UpdateChoices(orderedChoices, choicesToAdd, choicesToRemove, forkChoiceRule.value);
      var first: Option<ForkOp> := if orderedChoices == [] then None else Some(orderedChoices[0]);
      if first != currentForkTerminalOp {
        var change := SetCurrentForkTerminalOpTo(first);
      }
    }

    // ----- whole steps -----

    ghost predicate Valid()
      reads this
    {
      && GraphValid() && PrevsExact() && DepsExact() && EligibleExact()
      && ChoicesValid() && CurrentForkValid()
    }

    /** The terminal ops are exactly right for `eligible`; with a strict total rule the
        choices list them best first and the head is the one that the rule puts in place of
        every other, if there is any. */
    ghost predicate SettledAt(eligible: set<ForkOp>)
      reads `terminalEligibleOps, `orderedChoices, `currentForkTerminalOp
    {
      && AreTerminals(terminalEligibleOps, eligible)
      && (forkChoiceRule.Some? && IsStrictTotalOrder(forkChoiceRule.value) ==>
            && IsChoiceList(orderedChoices, terminalEligibleOps, forkChoiceRule.value)
            && (currentForkTerminalOp.None? <==> terminalEligibleOps == {})
            && (currentForkTerminalOp.Some? ==>
                  && currentForkTerminalOp.value in terminalEligibleOps
                  && forall o :: o in terminalEligibleOps && o != currentForkTerminalOp.value ==>
                       forkChoiceRule.value(o, currentForkTerminalOp.value)))
    }

    static lemma FirstIsBest(choices: seq<ForkOp>, ops: set<ForkOp>, rule: ForkChoiceRule)
      requires IsChoiceList(choices, ops, rule)
      ensures choices == [] <==> ops == {}
      ensures choices != [] ==>
                choices[0] in ops && forall o :: o in ops && o != choices[0] ==> rule(o, choices[0])
    {
      if choices != [] {
        assert choices[0] in choices;
      }
    }

    ghost predicate Settled()
      reads this
    {
      SettledAt(allEligibleOps)
    }

    /** Carries a change of the eligible ops over to the terminal ops, the choices and the
        current fork. */
    method ReactToEligibilityChange(added: set<ForkOp>, removed: set<ForkOp>, ghost base: set<ForkOp>)
      returns (ok: bool)
      requires Valid() && added + removed <= allForkableOps
      modifies `terminalEligibleOps, `orderedChoices, `allCurrentForkOps, `currentForkTerminalOp
      ensures Valid()
      ensures ok <==> forkChoiceRule.Some?
      ensures TerminalsUpdated(old(terminalEligibleOps), terminalEligibleOps, allEligibleOps, added, removed)
      ensures old(SettledAt(base)) && base <= allEligibleOps && added == allEligibleOps - base &&
              (forall o :: o in removed ==> !Uncovers(o, allEligibleOps)) ==>
                Settled()
      ensures old(SettledAt(base)) && added !! base && (forall o :: o in removed ==> !Uncovers(o, allEligibleOps)) &&
              AreTerminals(terminalEligibleOps, allEligibleOps) ==>
                Settled()
      ensures ok ==> currentForkTerminalOp == if orderedChoices == [] then None else Some(orderedChoices[0])
      ensures ok && added == {} ==> forall o :: o in orderedChoices <==>
                o in old(orderedChoices) || (o in removed && Uncovers(o, allEligibleOps))
    {
      hide PrevsExact, DepsExactFor, Passes, IsForkOf, IsStrictTotalOrder, BestFirst, TerminalsUpdated, AreTerminals;
      hide Uncovers;
      var addedTerminals, removedTerminals := UpdateEligibleTerminalOps(added, removed);
      if added !! base && (forall o :: o in removed ==> !Uncovers(o, allEligibleOps)) &&
         AreTerminals(old(terminalEligibleOps), base) {
        TerminalsAreAmong(old(terminalEligibleOps), base);
        assert addedTerminals !! old(terminalEligibleOps);
        assert old(terminalEligibleOps) - removedTerminals + addedTerminals == terminalEligibleOps;
        if base <= allEligibleOps && added == allEligibleOps - base {
          TerminalsAfterAdditions(base, allEligibleOps, old(terminalEligibleOps), terminalEligibleOps, removed);
        }
      }
      ok := ApplyForkChoiceRule(addedTerminals, removedTerminals);
      if ok && IsChoiceList(orderedChoices, terminalEligibleOps, forkChoiceRule.value) {
        FirstIsBest(orderedChoices, terminalEligibleOps, forkChoiceRule.value);
      }
    }

    /** The change of one op is all that the eligible ops do not reflect yet. */
    ghost predicate IsPending(op: ForkOp, valid: bool, base: set<ForkOp>)
      reads `allForkableOps, `allEligibleOps, `invalidOps, `foreignForks
    {
      && (valid ==>
            && AdditionsPending(allForkableOps, allEligibleOps, invalidOps, foreignForks, {op})
            && op !in base && base <= allEligibleOps <= base + {op}
            && (op in allEligibleOps ==> NextOf(allForkableOps, op) == {}))
      && (!valid ==>
            && RemovalsPending(allForkableOps, allEligibleOps, invalidOps, foreignForks, {op})
            && base == allEligibleOps)
    }

    /** What the change of one op does to the eligible ops. */
    method CascadeFrom(op: ForkOp, valid: bool, ghost base: set<ForkOp>)
      returns (added: set<ForkOp>, removed: set<ForkOp>)
      requires GraphValid() && PrevsExact() && DepsExact()
      requires IsPending(op, valid, base)
      modifies `allEligibleOps, `unmetForkablePrevOps, `reverseUnmetForkablePrevOps
      ensures PrevsExact() && EligibleExact() && added + removed <= allForkableOps
      ensures valid ==> base <= allEligibleOps && added == allEligibleOps - base && removed == {}
      ensures !valid ==> allEligibleOps <= base && added == {} && removed == (base - allEligibleOps) + {op}
    {
      assert allEligibleOps <= allForkableOps && op in allForkableOps;
      hide PrevsExact, DepsExactFor, AdditionsPending, RemovalsPending, Passes;
      added, removed := {}, {};
      if valid {
        added := CascadeEligibleOpAdditions({op}, base);
        EligibleAreApplied();
      } else {
        removed := CascadeEligibleOpRemovals({op});
      }
    }

    /** The reaction to an op that was just applied or revalidated (`valid`), or that was
        just invalidated. `base` holds the eligible ops from before the change. */
    method Mutate(op: ForkOp, valid: bool, ghost base: set<ForkOp>) returns (mutated: bool)
      requires GraphValid() && PrevsExact() && DepsExact() && ChoicesValid() && CurrentForkValid()
      requires IsPending(op, valid, base)
      modifies `allEligibleOps, `unmetForkablePrevOps, `reverseUnmetForkablePrevOps,
               `terminalEligibleOps, `orderedChoices, `allCurrentForkOps, `currentForkTerminalOp
      ensures Valid()
      ensures valid ==> base <= allEligibleOps && (mutated <==> allEligibleOps != base)
      ensures valid && old(SettledAt(base)) ==> Settled()
      ensures !valid ==>
                && mutated && allEligibleOps <= base
                && TerminalsUpdated(old(terminalEligibleOps), terminalEligibleOps, allEligibleOps,
                                    {}, (base - allEligibleOps) + {op})
      ensures !valid && old(SettledAt(base)) && base == allEligibleOps && !Uncovers(op, allEligibleOps) ==> Settled()
      ensures !valid && forkChoiceRule.Some? ==> forall o :: o in orderedChoices <==>
                o in old(orderedChoices) || (o in (base - allEligibleOps) + {op} && Uncovers(o, allEligibleOps))
      ensures !valid && forkChoiceRule.Some? ==>
                currentForkTerminalOp == if orderedChoices == [] then None else Some(orderedChoices[0])
    {
      hide GraphValid, PrevsExact, DepsExact, EligibleExact, ChoicesValid, CurrentForkValid, IsPending;
      hide SettledAt, TerminalsUpdated, Uncovers;
      var added, removed := CascadeFrom(op, valid, base);
      mutated := added != {} || removed != {};
      if mutated {
        var _ := ReactToEligibilityChange(added, removed, base);
      }
    }

    lemma SettledHasTerminals()
      ensures Settled() ==> AreTerminals(terminalEligibleOps, allEligibleOps)
    {
    }

    lemma EligibleAreApplied()
      requires EligibleExact()
      ensures allEligibleOps <= allForkableOps
    {
    }

    method RegisterPrevOps(op: ForkOp) returns (met: bool)
      requires op !in op.prevs
      modifies `nextForkableOps, `unmetForkablePrevOps, `reverseUnmetForkablePrevOps
      ensures forall p, o :: (p, o) in nextForkableOps <==> (p, o) in old(nextForkableOps) || (o == op && p in op.prevs)
      ensures forall o, p :: (o, p) in unmetForkablePrevOps <==>
                             (o, p) in old(unmetForkablePrevOps) ||
                             (o == op && p in op.prevs && !old(IsForkEligible(p)))
      ensures forall o, p :: (p, o) in reverseUnmetForkablePrevOps <==>
                             (p, o) in old(reverseUnmetForkablePrevOps) ||
                             (o == op && p in op.prevs && !old(IsForkEligible(p)))
      ensures met <==> forall p :: p in op.prevs ==> old(IsForkEligible(p))
    {
      met := true;
      for i := 0 to |op.prevs|
        invariant forall p, o :: (p, o) in nextForkableOps <==>
                                 (p, o) in old(nextForkableOps) || (o == op && p in op.prevs[..i])
        invariant forall o, p :: (o, p) in unmetForkablePrevOps <==>
                                 (o, p) in old(unmetForkablePrevOps) ||
                                 (o == op && p in op.prevs[..i] && !old(IsForkEligible(p)))
        invariant forall o, p :: (p, o) in reverseUnmetForkablePrevOps <==>
                                 (p, o) in old(reverseUnmetForkablePrevOps) ||
                                 (o == op && p in op.prevs[..i] && !old(IsForkEligible(p)))
        invariant met <==> forall p :: p in op.prevs[..i] ==> old(IsForkEligible(p))
      {
        var prevOp := op.prevs[i];
        assert op.prevs[..i + 1] == op.prevs[..i] + [prevOp];
        assert prevOp in op.prevs;
        SameKey(prevOp, unmetForkablePrevOps, old(unmetForkablePrevOps));
        nextForkableOps := nextForkableOps + {(prevOp, op)};
        if !IsForkEligible(prevOp) {
          unmetForkablePrevOps := unmetForkablePrevOps + {(op, prevOp)};
          reverseUnmetForkablePrevOps := reverseUnmetForkablePrevOps + {(prevOp, op)};
          met := false;
        }
      }
      assert op.prevs[..|op.prevs|] == op.prevs;
    }

    method RegisterDeps(op: ForkOp, ghost others: set<ForkOp>) returns (met: bool)
      requires DepsExactFor(others) && op !in others
      modifies `unmetForkableOpDeps, `reverseUnmetForkableOpDeps, `allReverseForkableOpDeps
      ensures DepsExactFor(others + {op})
      ensures met <==> op.deps <= foreignForks
    {
      met := true;
      var todo := op.deps;
      while todo != {}
        invariant todo <= op.deps
        invariant forall o, d :: (o, d) in unmetForkableOpDeps <==>
                                 d in o.deps && d !in foreignForks && (o in others || (o == op && d !in todo))
        invariant forall o, d :: (d, o) in reverseUnmetForkableOpDeps <==> (o, d) in unmetForkableOpDeps
        invariant forall o, d :: (d, o) in allReverseForkableOpDeps <==>
                                 d in o.deps && (o in others || (o == op && d !in todo))
        invariant met <==> op.deps - todo <= foreignForks
        decreases |todo|
      {
        var dep :| dep in todo;
        todo := todo - {dep};
        allReverseForkableOpDeps := allReverseForkableOpDeps + {(dep, op)};
        if dep !in foreignForks {
          unmetForkableOpDeps := unmetForkableOpDeps + {(op, dep)};
          reverseUnmetForkableOpDeps := reverseUnmetForkableOpDeps + {(dep, op)};
          met := false;
        }
      }
    }

    /** Registers a new op: the maps stay exact, and it joins the eligible ops if it passes. */
    method Register(op: ForkOp)
      requires Valid() && op !in allForkableOps && op !in invalidOps
      requires forall p :: p in op.prevs ==> p in allForkableOps
      modifies `allForkableOps, `nextForkableOps, `allEligibleOps, `unmetForkablePrevOps, `reverseUnmetForkablePrevOps,
               `unmetForkableOpDeps, `reverseUnmetForkableOpDeps, `allReverseForkableOpDeps
      ensures GraphValid() && PrevsExact() && DepsExact()
      ensures allForkableOps == old(allForkableOps) + {op}
      ensures AdditionsPending(allForkableOps, allEligibleOps, invalidOps, foreignForks, {op})
      ensures old(allEligibleOps) <= allEligibleOps <= old(allEligibleOps) + {op}
      ensures NextOf(allForkableOps, op) == {}
    {
      hide AdditionsPending, IsEligibleSet, Passes;
      NoSuccessors(op);
      PrevsAreMeant(op);
      AddedIsPending(allForkableOps, allEligibleOps, invalidOps, foreignForks, op);
      allForkableOps := allForkableOps + {op};
      var prevsMet := RegisterPrevOps(op);
      var depsMet := RegisterDeps(op, old(allForkableOps));
      if prevsMet && depsMet {
        allEligibleOps := allEligibleOps + {op};
      }
      PrevsStayExact(op, old(allForkableOps), old(allEligibleOps), old(unmetForkablePrevOps),
                     old(reverseUnmetForkablePrevOps));
    }

    lemma PrevsAreMeant(op: ForkOp)
      requires Valid() && forall p :: p in op.prevs ==> p in allForkableOps
      ensures forall p :: p in op.prevs ==> (IsForkEligible(p) <==> p in allEligibleOps)
    {
      hide DepsExact, PrevsExact;
      forall p | p in op.prevs
        ensures IsForkEligible(p) <==> p in allEligibleOps
      {
        EligibleMeaning(p);
      }
    }

    lemma PrevsStayExact(op: ForkOp, all: set<ForkOp>, eligible: set<ForkOp>, unmet: Rel<ForkOp, ForkOp>,
                         reverse: Rel<ForkOp, ForkOp>)
      requires forall o, p :: (o, p) in unmet <==> o in all && p in o.prevs && p !in eligible
      requires forall o, p :: (p, o) in reverse <==> (o, p) in unmet
      requires op !in all && (forall o :: o in all ==> op !in o.prevs) && op !in op.prevs
      requires allForkableOps == all + {op}
      requires forall o, p :: (o, p) in unmetForkablePrevOps <==>
                (o, p) in unmet || (o == op && p in op.prevs && p !in eligible)
      requires forall o, p :: (p, o) in reverseUnmetForkablePrevOps <==>
                              (p, o) in reverse || (o == op && p in op.prevs && p !in eligible)
      requires forall p :: p != op ==> (p in allEligibleOps <==> p in eligible)
      ensures PrevsExact()
    {
    }

    /** Nothing that has been applied follows an op that has not. */
    lemma NoSuccessors(op: ForkOp)
      requires GraphValid() && op !in allForkableOps
      ensures op !in op.prevs && NextOf(allForkableOps, op) == {}
    {
    }

    constructor (rule: Option<ForkChoiceRule>, foreign: set<Hash>)
      ensures Valid() && Settled()
      ensures forkChoiceRule == rule && allForkableOps == {} && invalidOps == {} && foreignForks == foreign
    {
      allForkableOps, allEligibleOps, terminalEligibleOps, allCurrentForkOps := {}, {}, {}, {};
      nextForkableOps, unmetForkablePrevOps, reverseUnmetForkablePrevOps := {}, {}, {};
      unmetForkableOpDeps, reverseUnmetForkableOpDeps, allReverseForkableOpDeps := {}, {}, {};
      currentForkTerminalOp, orderedChoices := None, [];
      forkChoiceRule, invalidOps, foreignForks := rule, {}, foreign;
    }

    /** A forkable op arrives, after its predecessors. Applying it again does nothing. */
    method Apply(op: ForkOp) returns (mutated: bool)
      requires Valid() && (op !in allForkableOps ==> op !in invalidOps)
      requires forall p :: p in op.prevs ==> p in allForkableOps
      modifies this
      ensures Valid() && (old(Settled()) ==> Settled())
      ensures allForkableOps == old(allForkableOps) + {op}
      ensures invalidOps == old(invalidOps) && foreignForks == old(foreignForks)
      ensures mutated <==> allEligibleOps != old(allEligibleOps)
      ensures op in old(allForkableOps) ==> unchanged(this)
    {
      mutated := false;
      if op !in allForkableOps {
        ghost var base := allEligibleOps;
        Register(op);
        mutated := Mutate(op, true, base);
      }
    }

    /** An undo or redo flips the validity of an applied op. After an undo the terminal ops
        are still exact iff the op was not eligible and sits on no terminal op. */
    method ChangeValidity(op: ForkOp, valid: bool) returns (mutated: bool)
      requires Valid() && op in allForkableOps && (valid <==> op in invalidOps)
      modifies this
      ensures Valid()
      ensures allForkableOps == old(allForkableOps) && foreignForks == old(foreignForks)
      ensures invalidOps == if valid then old(invalidOps) - {op} else old(invalidOps) + {op}
      ensures mutated <==> !valid || allEligibleOps != old(allEligibleOps)
      ensures valid && old(Settled()) ==> Settled()
      ensures !valid && old(Settled()) ==>
                (AreTerminals(terminalEligibleOps, allEligibleOps) <==>
                 op !in old(allEligibleOps) && forall p :: p in op.prevs ==> p !in old(terminalEligibleOps))
      ensures old(Settled()) && AreTerminals(terminalEligibleOps, allEligibleOps) ==> Settled()
      ensures !valid && forkChoiceRule.Some? ==> forall o :: o in orderedChoices <==>
                o in old(orderedChoices) ||
                (o in (old(allEligibleOps) - allEligibleOps) + {op} && Uncovers(o, allEligibleOps))
      ensures !valid && forkChoiceRule.Some? ==>
                currentForkTerminalOp == if orderedChoices == [] then None else Some(orderedChoices[0])
    {
      SettledHasTerminals();
      ghost var base := allEligibleOps;
      invalidOps := if valid then invalidOps - {op} else invalidOps + {op};
      ValidityPending(allEligibleOps, allForkableOps, old(invalidOps), invalidOps, foreignForks, op);
      hide SettledAt, TerminalsUpdated, AreTerminals, Uncovers, Passes, PrevsExact, DepsExactFor, IsForkOf;
      hide AdditionsPending, RemovalsPending;
      mutated := Mutate(op, valid, base);
      if valid {
        SettledHasTerminals();
      } else if old(Settled()) {
        assert invalidOps - {op} == old(invalidOps);
        TerminalsAfterRemoval(old(allEligibleOps), allEligibleOps, allForkableOps, invalidOps, foreignForks, op,
                              old(terminalEligibleOps), terminalEligibleOps);
      }
    }

    /** A dependency enters its object's fork; returns the ops that were waiting for it. */
    method MarkDepAsMet(dep: Hash) returns (waiting: set<ForkOp>)
      requires DepsExact()
      modifies `unmetForkableOpDeps, `reverseUnmetForkableOpDeps, `foreignForks
      ensures DepsExact() && foreignForks == old(foreignForks) + {dep}
      ensures forall o :: o in waiting <==> o in allForkableOps && dep in o.deps && dep !in old(foreignForks)
    {
      waiting := Get(reverseUnmetForkableOpDeps, dep);
      var todo := waiting;
      while todo != {}
        invariant todo <= waiting && foreignForks == old(foreignForks)
        invariant forall o, d :: (o, d) in unmetForkableOpDeps <==>
                                 (o, d) in old(unmetForkableOpDeps) && !(d == dep && o in waiting - todo)
        invariant forall o, d :: (d, o) in reverseUnmetForkableOpDeps <==> (o, d) in unmetForkableOpDeps
        decreases |todo|
      {
        var op :| op in todo;
        todo := todo - {op};
        unmetForkableOpDeps := unmetForkableOpDeps - {(op, dep)};
        reverseUnmetForkableOpDeps := reverseUnmetForkableOpDeps - {(dep, op)};
      }
      foreignForks := foreignForks + {dep};
    }

    method AddUnmetDep(dep: Hash) returns (affected: set<ForkOp>)
      modifies `unmetForkableOpDeps, `reverseUnmetForkableOpDeps
      ensures forall o :: o in affected <==> (dep, o) in allReverseForkableOpDeps && old(IsForkEligible(o))
      ensures forall o, d :: (o, d) in unmetForkableOpDeps <==>
                             (o, d) in old(unmetForkableOpDeps) || (d == dep && (dep, o) in allReverseForkableOpDeps)
      ensures forall o, d :: (d, o) in reverseUnmetForkableOpDeps <==>
                             (d, o) in old(reverseUnmetForkableOpDeps) ||
                             (d == dep && (dep, o) in allReverseForkableOpDeps)
    {
      var dependent := Get(allReverseForkableOpDeps, dep);
      var todo := dependent;
      affected := {};
      while todo != {}
        invariant todo <= dependent
        invariant forall o :: o in affected <==> o in dependent - todo && old(IsForkEligible(o))
        invariant forall o, d :: (o, d) in unmetForkableOpDeps <==>
                                 (o, d) in old(unmetForkableOpDeps) || (d == dep && o in dependent - todo)
        invariant forall o, d :: (d, o) in reverseUnmetForkableOpDeps <==>
                                 (d, o) in old(reverseUnmetForkableOpDeps) || (d == dep && o in dependent - todo)
        decreases |todo|
      {
        var op :| op in todo;
        SameKey(op, unmetForkableOpDeps, old(unmetForkableOpDeps));
        if IsForkEligible(op) {
          affected := affected + {op};
        }
        todo := todo - {op};
        unmetForkableOpDeps := unmetForkableOpDeps + {(op, dep)};
        reverseUnmetForkableOpDeps := reverseUnmetForkableOpDeps + {(dep, op)};
      }
    }

    /** A dependency leaves its object's fork; returns the ops that this makes ineligible. */
    method MarkDepAsUnmet(dep: Hash, ghost toRemove: set<ForkOp>) returns (affected: set<ForkOp>)
      requires DepsExact() && PrevsExact()
      requires RemovalsPending(allForkableOps, allEligibleOps, invalidOps, foreignForks, toRemove)
      modifies `unmetForkableOpDeps, `reverseUnmetForkableOpDeps, `foreignForks
      ensures DepsExact() && foreignForks == old(foreignForks) - {dep}
      ensures RemovalsPending(allForkableOps, allEligibleOps, invalidOps, foreignForks, toRemove + affected)
      ensures forall o :: o in affected <==>
                            && o in allForkableOps && dep in o.deps
                            && Passes(o, allEligibleOps, invalidOps, old(foreignForks))
    {
      forall o | o in allForkableOps
        ensures IsForkEligible(o) <==> Passes(o, allEligibleOps, invalidOps, foreignForks)
      {
        EligibleMeaning(o);
      }
      affected := AddUnmetDep(dep);
      DepRemovalStep(allForkableOps, allEligibleOps, invalidOps, foreignForks, toRemove, dep, affected);
      foreignForks := foreignForks - {dep};
    }

    method MarkDepsAsMet(deps: set<Hash>) returns (toCheck: set<ForkOp>)
      requires DepsExact() && EligibleExact()
      modifies `unmetForkableOpDeps, `reverseUnmetForkableOpDeps, `foreignForks
      ensures DepsExact() && foreignForks == old(foreignForks) + deps
      ensures AdditionsPending(allForkableOps, allEligibleOps, invalidOps, foreignForks, toCheck)
      ensures toCheck !! allEligibleOps
    {
      toCheck := {};
      var todo := deps;
      hide DepsExactFor, Passes;
      while todo != {}
        invariant DepsExact() && todo <= deps && foreignForks == old(foreignForks) + (deps - todo)
        invariant AdditionsPending(allForkableOps, allEligibleOps, invalidOps, foreignForks, toCheck)
        invariant toCheck !! allEligibleOps
        decreases |todo|
      {
        var dep :| dep in todo;
        todo := todo - {dep};
        ghost var before := foreignForks;
        var waiting := MarkDepAsMet(dep);
        DepAdditionStep(allForkableOps, allEligibleOps, invalidOps, before, toCheck, dep, waiting);
        toCheck := toCheck + waiting;
      }
    }

    method MarkDepsAsUnmet(deps: set<Hash>) returns (toRemove: set<ForkOp>)
      requires DepsExact() && PrevsExact() && EligibleExact()
      modifies `unmetForkableOpDeps, `reverseUnmetForkableOpDeps, `foreignForks
      ensures DepsExact() && foreignForks == old(foreignForks) - deps
      ensures RemovalsPending(allForkableOps, allEligibleOps, invalidOps, foreignForks, toRemove)
      ensures toRemove <= allEligibleOps && forall o :: o in toRemove ==> o.deps * deps != {}
    {
      toRemove := {};
      var todo := deps;
      while todo != {}
        invariant DepsExact() && todo <= deps && foreignForks == old(foreignForks) - (deps - todo)
        invariant RemovalsPending(allForkableOps, allEligibleOps, invalidOps, foreignForks, toRemove)
        invariant toRemove <= allEligibleOps && forall o :: o in toRemove ==> o.deps * deps != {}
        decreases |todo|
      {
        var dep :| dep in todo;
        todo := todo - {dep};
        var affected := MarkDepAsUnmet(dep, toRemove);
        assert forall o :: o in affected ==> dep in o.deps * deps;
        toRemove := toRemove + affected;
      }
    }

    /** The eligible ops follow the fork of another object. */
    method FollowForeignFork(addedToFork: set<Hash>, removedFromFork: set<Hash>)
      returns (added: set<ForkOp>, removed: set<ForkOp>, ghost extended: set<ForkOp>)
      requires Valid()
      modifies `allEligibleOps, `unmetForkablePrevOps, `reverseUnmetForkablePrevOps,
               `unmetForkableOpDeps, `reverseUnmetForkableOpDeps, `foreignForks
      ensures PrevsExact() && DepsExact() && EligibleExact()
      ensures foreignForks == old(foreignForks) + addedToFork - removedFromFork
      ensures IsEligibleSet(extended, allForkableOps, invalidOps, old(foreignForks) + addedToFork)
      ensures old(allEligibleOps) <= extended && added == extended - old(allEligibleOps)
      ensures allEligibleOps <= extended && removed == extended - allEligibleOps && added + removed <= allForkableOps
      ensures !HitsEligible(removedFromFork, allForkableOps, invalidOps, old(foreignForks) + addedToFork) ==>
                removed == {} && allEligibleOps == extended
    {
      hide PrevsExact, DepsExactFor, AdditionsPending, RemovalsPending, Passes, IsForkOf, HitsEligible;
      var toCheck := MarkDepsAsMet(addedToFork);
      added := CascadeEligibleOpAdditions(toCheck, allEligibleOps);
      EligibleAreApplied();
      extended := allEligibleOps;
      var toRemove := MarkDepsAsUnmet(removedFromFork);
      if !HitsEligible(removedFromFork, allForkableOps, invalidOps, old(foreignForks) + addedToFork) {
        NothingHit(extended, removedFromFork, allForkableOps, invalidOps, old(foreignForks) + addedToFork, toRemove);
      }
      RemovalsArePending(toRemove);
      removed := CascadeEligibleOpRemovals(toRemove);
      NoneIsBack(extended, toRemove);
    }

    lemma RemovalsArePending(toRemove: set<ForkOp>)
      requires RemovalsPending(allForkableOps, allEligibleOps, invalidOps, foreignForks, toRemove)
      ensures forall o :: o in toRemove ==> !Passes(o, allEligibleOps, invalidOps, foreignForks)
    {
    }

    /** What does not pass among more eligible ops does not pass among fewer. */
    lemma NoneIsBack(extended: set<ForkOp>, toRemove: set<ForkOp>)
      requires EligibleExact() && allEligibleOps <= extended && toRemove <= extended
      requires forall o :: o in toRemove ==> !Passes(o, extended, invalidOps, foreignForks)
      ensures toRemove <= extended - allEligibleOps
    {
    }

    /** Another object's current fork changed. Fails, after the eligibility update, when
        this object has no fork choice rule. */
    method OnForeignForkChange(addedToFork: set<Hash>, removedFromFork: set<Hash>) returns (ok: bool)
      requires Valid()
      modifies this
      ensures Valid()
      ensures allForkableOps == old(allForkableOps) && invalidOps == old(invalidOps)
      ensures foreignForks == old(foreignForks) + addedToFork - removedFromFork
      ensures ok <==> forkChoiceRule.Some?
      ensures old(Settled()) ==>
                !HitsEligible(removedFromFork, allForkableOps, invalidOps, old(foreignForks) + addedToFork) ==>
                  Settled()
      ensures old(Settled()) && addedToFork == {} ==>
                (AreTerminals(terminalEligibleOps, allEligibleOps) <==>
                 !HitsEligible(removedFromFork, allForkableOps, invalidOps, old(foreignForks)))
      ensures old(Settled()) ==>
                (AreTerminals(terminalEligibleOps, allEligibleOps) <==>
                 KeepsTerminals(old(terminalEligibleOps), old(allEligibleOps),
                                EligibleIn(allForkableOps, invalidOps, old(foreignForks) + addedToFork),
                                EligibleIn(allForkableOps, invalidOps, foreignForks)))
      ensures old(Settled()) && AreTerminals(terminalEligibleOps, allEligibleOps) ==> Settled()
    {
      hide PrevsExact, DepsExact, ChoicesValid, CurrentForkValid, IsEligibleSet, PrevClosed;
      hide SettledAt, TerminalsUpdated, HitsEligible, AreTerminals, Uncovers, KeepsTerminals, EligibleIn;
      SettledHasTerminals();
      ghost var base := allEligibleOps;
      var added, removed;
      ghost var extended;
      added, removed, extended := FollowForeignFork(addedToFork, removedFromFork);
      ok := ReactToEligibilityChange(added, removed, base);
      if old(Settled()) {
        ghost var more := old(foreignForks) + addedToFork;
        SettledHasTerminals();
        EligibleSetIsAll(extended, allForkableOps, invalidOps, more);
        EligibleSetIsAll(allEligibleOps, allForkableOps, invalidOps, foreignForks);
        EligibleIsClosed(base, allForkableOps, invalidOps, old(foreignForks));
        TerminalsAfterChange(base, extended, allEligibleOps, old(terminalEligibleOps), terminalEligibleOps);
        KeptUncoversNothing(old(terminalEligibleOps), base, extended, allEligibleOps);
        if addedToFork == {} {
          assert more == old(foreignForks);
          SameEligible(base, extended, allForkableOps, invalidOps, old(foreignForks));
          assert added == {};
          TerminalsAfterLoss(base, allEligibleOps, allForkableOps, invalidOps, old(foreignForks), removedFromFork,
                             old(terminalEligibleOps), terminalEligibleOps, removed);
        }
      }
    }
  }

  /** In every reachable state the incrementally kept set is the recursive definition. */
  lemma EligibleOpsAreExact(obj: ForkableObject)
    requires obj.Valid()
    ensures forall o :: o in obj.allEligibleOps <==>
                        o in obj.allForkableOps && Eligible(o, obj.invalidOps, obj.foreignForks)
  {
    forall o | o in obj.allForkableOps
      ensures o in obj.allEligibleOps <==> Eligible(o, obj.invalidOps, obj.foreignForks)
    {
      EligibleSetIsRecursive(obj.allEligibleOps, obj.allForkableOps, obj.invalidOps, obj.foreignForks, o);
    }
  }

  /** No eligible op follows this one. */
  ghost predicate IsLast(o: ForkOp, obj: ForkableObject)
    reads obj
  {
    && o in obj.allForkableOps && Eligible(o, obj.invalidOps, obj.foreignForks)
    && forall n :: n in obj.allForkableOps && Eligible(n, obj.invalidOps, obj.foreignForks) ==> o !in n.prevs
  }

  /** What the current fork is, by the ops alone: there is one as soon as some op is eligible,
      its head is the last eligible op that the rule prefers to all others, and it holds all that
      leads up to the head. */
  lemma PreferredForkIsCurrent(obj: ForkableObject)
    requires obj.Valid() && obj.Settled() && obj.forkChoiceRule.Some? && IsStrictTotalOrder(obj.forkChoiceRule.value)
    ensures var head := obj.currentForkTerminalOp;
            && (head.None? <==>
                  forall o :: o in obj.allForkableOps ==> !Eligible(o, obj.invalidOps, obj.foreignForks))
            && (head.Some? ==>
                  && IsLast(head.value, obj)
                  && forall o :: IsLast(o, obj) && o != head.value ==> obj.forkChoiceRule.value(o, head.value))
            && forall x :: x in obj.allCurrentForkOps <==> head.Some? && IsAncestor(x, head.value)
  {
    EligibleOpsAreExact(obj);
    assert forall o :: IsTerminal(o, obj.allEligibleOps) <==> IsLast(o, obj);
    hide Eligible;
    if obj.allEligibleOps != {} {
      var m := Heaviest(obj.allEligibleOps);
      forall n | n in obj.allEligibleOps
        ensures m !in n.prevs
      {
        if m in n.prevs {
          WeightOfMember(m, n.prevs);
        }
      }
      assert IsTerminal(m, obj.allEligibleOps);
    }
  }

  /** Two objects with the same rule that have applied the same ops and see the same
      invalidations and foreign forks have chosen the same fork, in whatever order the ops
      and the dependencies arrived. */
  lemma ForkChoiceConverges(a: ForkableObject, b: ForkableObject)
    requires a.Valid() && a.Settled() && b.Valid() && b.Settled()
    requires a.forkChoiceRule == b.forkChoiceRule && a.forkChoiceRule.Some?
    requires IsStrictTotalOrder(a.forkChoiceRule.value)
    requires a.allForkableOps == b.allForkableOps && a.invalidOps == b.invalidOps && a.foreignForks == b.foreignForks
    ensures a.allEligibleOps == b.allEligibleOps && a.terminalEligibleOps == b.terminalEligibleOps
    ensures a.orderedChoices == b.orderedChoices
    ensures a.currentForkTerminalOp == b.currentForkTerminalOp && a.allCurrentForkOps == b.allCurrentForkOps
  {
    EligibleOpsAreExact(a);
    EligibleOpsAreExact(b);
    assert a.allEligibleOps == b.allEligibleOps;
    assert a.terminalEligibleOps == b.terminalEligibleOps;
    ChoiceListUnique(a.orderedChoices, b.orderedChoices, a.terminalEligibleOps, a.forkChoiceRule.value);
  }

  /** The smallest object whose terminal ops are wrong: one op, applied and then undone. */
  method UndoneOpStaysTerminal(op: ForkOp, rule: Option<ForkChoiceRule>) returns (obj: ForkableObject)
    requires op.prevs == [] && op.deps == {}
    ensures fresh(obj) && obj.Valid() && obj.allForkableOps == {op} && obj.invalidOps == {op}
    ensures !AreTerminals(obj.terminalEligibleOps, obj.allEligibleOps)
  {
    hide ForkableObject.Valid, ForkableObject.Settled, AreTerminals;
    obj := new ForkableObject(rule, {});
    var _ := obj.Apply(op);
    EligibleOpsAreExact(obj);
    assert Eligible(op, {}, {});
    var _ := obj.ChangeValidity(op, false);
  }
}
