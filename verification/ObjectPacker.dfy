/** Packs objects for sending, each with all that it depends on, up to a limit. What the
    receiver is known to have may be left out. */
module ObjectPackers {
  import opened FiniteSets
  import opened Hashing

  /** The literal form of an object. As its hash covers what it depends on, it holds that here. */
  datatype Literal = Literal(value: string, dependencies: seq<Literal>)

  // ----- what has to be packed -----

  /** A literal is needed for another one if it is that one or needed for one of the
      dependencies, without passing through what can be skipped. */
  ghost predicate IsNeeded(l: Literal, root: Literal, skip: set<Literal>)
    decreases root
  {
    root !in skip && (l == root || exists d :: d in root.dependencies && IsNeeded(l, d, skip))
  }

  /** The literals of `ls`, each followed by what it depends on, after those already packed. */
  ghost function Pack(ls: seq<Literal>, skip: set<Literal>, packed: seq<Literal>): seq<Literal>
    decreases ls
  {
    if ls == [] then packed
    else if ls[0] in skip || ls[0] in packed then Pack(ls[1..], skip, packed)
    else Pack(ls[1..], skip, Pack(ls[0].dependencies, skip, packed + [ls[0]]))
  }

  /** The same for a stack of lists. */
  ghost function PackStack(stack: seq<seq<Literal>>, skip: set<Literal>, packed: seq<Literal>): seq<Literal>
    decreases |stack|
  {
    if stack == [] then packed
    else PackStack(stack[..|stack| - 1], skip, Pack(stack[|stack| - 1], skip, packed))
  }

  ghost predicate NoRepeats(ls: seq<Literal>) {
    forall i, j :: 0 <= i < j < |ls| ==> ls[i] != ls[j]
  }

  /** A literal is skipped or packed. */
  ghost predicate IsTaken(l: Literal, skip: set<Literal>, packed: seq<Literal>) {
    l in skip || l in packed
  }

  ghost predicate TakesDependencies(l: Literal, skip: set<Literal>, packed: seq<Literal>) {
    forall d :: d in l.dependencies ==> IsTaken(d, skip, packed)
  }

  lemma PrefixHas(a: seq<Literal>, b: seq<Literal>)
    requires a <= b
    ensures forall l :: l in a ==> l in b
  {
  }

  lemma {:induction false} PackTakes(ls: seq<Literal>, skip: set<Literal>, packed: seq<Literal>)
    requires NoRepeats(packed) && (forall l :: l in packed ==> l !in skip)
    ensures packed <= Pack(ls, skip, packed) && NoRepeats(Pack(ls, skip, packed))
    ensures forall l :: l in Pack(ls, skip, packed) ==> l !in skip
    ensures forall l :: l in ls ==> IsTaken(l, skip, Pack(ls, skip, packed))
    ensures forall l :: l in Pack(ls, skip, packed) && l !in packed ==>
              TakesDependencies(l, skip, Pack(ls, skip, packed)) && exists r :: r in ls && IsNeeded(l, r, skip)
    decreases ls
  {
    if ls != [] {
      var first := ls[0];
      if first in skip || first in packed {
        PackTakes(ls[1..], skip, packed);
        assert forall r :: r in ls[1..] ==> r in ls;
      } else {
        var more := packed + [first];
        var mid := Pack(first.dependencies, skip, more);
        PackTakes(first.dependencies, skip, more);
        PackTakes(ls[1..], skip, mid);
        var all := Pack(ls, skip, packed);
        PrefixHas(packed, more);
        PrefixHas(more, mid);
        PrefixHas(mid, all);
        assert first == more[|packed|];
        forall l | l in all && l !in packed
          ensures TakesDependencies(l, skip, all) && exists r :: r in ls && IsNeeded(l, r, skip)
        {
          if l in mid {
            assert first in ls && IsNeeded(l, first, skip);
            assert l == first || TakesDependencies(l, skip, mid);
          } else {
            var r :| r in ls[1..] && IsNeeded(l, r, skip);
            assert r in ls;
          }
        }
      }
    }
  }

  lemma {:induction false} NeededIsTaken(l: Literal, root: Literal, skip: set<Literal>, packed: seq<Literal>)
    requires root in packed && IsNeeded(l, root, skip)
    requires forall p :: p in packed ==> TakesDependencies(p, skip, packed)
    ensures l in packed
    decreases root
  {
    if l != root {
      var d :| d in root.dependencies && IsNeeded(l, d, skip);
      assert IsTaken(d, skip, packed);
      NeededIsTaken(l, d, skip, packed);
    }
  }

  /** What is packed for an object is exactly what is needed for it, each literal once. */
  lemma PackIsExactlyNeeded(root: Literal, skip: set<Literal>)
    ensures NoRepeats(Pack([root], skip, []))
    ensures forall l :: l in Pack([root], skip, []) <==> IsNeeded(l, root, skip)
    ensures forall l :: l in Pack([root], skip, []) ==> TakesDependencies(l, skip, Pack([root], skip, []))
  {
    var all := Pack([root], skip, []);
    PackTakes([root], skip, []);
    forall l
      ensures l in all <==> IsNeeded(l, root, skip)
    {
      if IsNeeded(l, root, skip) {
        assert IsTaken(root, skip, all);
        NeededIsTaken(l, root, skip, all);
      }
    }
  }

  lemma {:induction false} StackTakes(stack: seq<seq<Literal>>, skip: set<Literal>, packed: seq<Literal>)
    requires NoRepeats(packed) && (forall l :: l in packed ==> l !in skip)
    ensures packed <= PackStack(stack, skip, packed)
    decreases |stack|
  {
    if stack != [] {
      PackTakes(stack[|stack| - 1], skip, packed);
      StackTakes(stack[..|stack| - 1], skip, Pack(stack[|stack| - 1], skip, packed));
    }
  }

  ghost function StackSize(stack: seq<seq<Literal>>): nat {
    if stack == [] then 0 else StackSize(stack[..|stack| - 1]) + |stack[|stack| - 1]| + 1
  }

  /** One turn of the packing loop: the head of the topmost list is dealt with. */
  lemma StackStep(queued: seq<seq<Literal>>, skip: set<Literal>, packed: seq<Literal>)
    requires queued != []
    ensures var rest, top := queued[..|queued| - 1], queued[|queued| - 1];
            if top == [] then
              PackStack(rest, skip, packed) == PackStack(queued, skip, packed) && StackSize(rest) < StackSize(queued)
            else
              && StackSize(rest + [top[1..]]) < StackSize(queued)
              && PackStack(queued, skip, packed) ==
                 if IsTaken(top[0], skip, packed) then PackStack(rest + [top[1..]], skip, packed)
                 else PackStack(rest + [top[1..]] + [top[0].dependencies], skip, packed + [top[0]])
  {
  }

  lemma StackIsEmpty(skip: set<Literal>, packed: seq<Literal>)
    ensures PackStack([], skip, packed) == packed
  {
  }

  lemma StartStack(l: Literal, skip: set<Literal>)
    ensures PackStack(if l in skip then [] else [[l]], skip, []) == Pack([l], skip, [])
  {
  }

  /** What the loop packs is needed. */
  lemma PackedIsNeeded(queued: seq<seq<Literal>>, skip: set<Literal>, packed: seq<Literal>, root: Literal)
    requires NoRepeats(packed) && (forall l :: l in packed ==> l !in skip)
    requires PackStack(queued, skip, packed) == Pack([root], skip, [])
    ensures forall l :: l in packed ==> IsNeeded(l, root, skip)
    ensures packed <= Pack([root], skip, [])
  {
    StackTakes(queued, skip, packed);
    PrefixHas(packed, Pack([root], skip, []));
    PackIsExactlyNeeded(root, skip);
  }

  ghost predicate IsDependency(d: Literal, packed: seq<Literal>) {
    exists l :: l in packed && d in l.dependencies
  }

  ghost predicate IsQueued(d: Literal, queued: seq<seq<Literal>>) {
    exists i :: 0 <= i < |queued| && d in queued[i]
  }

  /** What the loop has met that can be omitted is omitted or still on the stack. */
  ghost predicate IsMet(root: Literal, omittable: set<Literal>, queued: seq<seq<Literal>>, packed: seq<Literal>,
                        omitted: set<Literal>) {
    && (forall o :: o in omitted ==> o in omittable && IsDependency(o, packed))
    && (forall d :: IsQueued(d, queued) ==> d == root || IsDependency(d, packed))
    && (forall d :: d in omittable && IsDependency(d, packed) ==> d in omitted || IsQueued(d, queued))
  }

  lemma QueuedOneMore(queued: seq<seq<Literal>>, top: seq<Literal>, d: Literal)
    ensures IsQueued(d, queued + [top]) <==> IsQueued(d, queued) || d in top
  {
    var longer := queued + [top];
    if i :| 0 <= i < |queued| && d in queued[i] {
      assert d in longer[i];
    }
    if d in top {
      assert d in longer[|queued|];
    }
    if i :| 0 <= i < |longer| && d in longer[i] {
      assert i == |queued| || d in queued[i];
    }
  }

  lemma DependencyOfOneMore(packed: seq<Literal>, l: Literal, d: Literal)
    ensures IsDependency(d, packed + [l]) <==> IsDependency(d, packed) || d in l.dependencies
  {
  }

  lemma StartsMet(root: Literal, omittable: set<Literal>)
    ensures IsMet(root, omittable, [], [], {}) && IsMet(root, omittable, [[root]], [], {})
  {
  }

  lemma MeetsNext(root: Literal, omittable: set<Literal>, rest: seq<seq<Literal>>, top: seq<Literal>,
                  packed: seq<Literal>, omitted: set<Literal>)
    requires IsMet(root, omittable, rest + [top], packed, omitted) && root !in omittable
    ensures top == [] ==> IsMet(root, omittable, rest, packed, omitted)
    ensures top != [] && (top[0] !in omittable || top[0] in omitted) ==>
              IsMet(root, omittable, rest + [top[1..]], packed, omitted)
    ensures top != [] && top[0] in omittable ==> IsMet(root, omittable, rest + [top[1..]], packed, omitted + {top[0]})
    ensures top != [] && top[0] !in omittable ==>
              IsMet(root, omittable, rest + [top[1..]] + [top[0].dependencies], packed + [top[0]], omitted)
  {
    forall d
      ensures IsQueued(d, rest + [top]) <==> IsQueued(d, rest) || d in top
    {
      QueuedOneMore(rest, top, d);
    }
    if top != [] {
      assert top == [top[0]] + top[1..];
      forall d
        ensures IsQueued(d, rest + [top[1..]]) <==> IsQueued(d, rest) || d in top[1..]
        ensures IsQueued(d, rest + [top[1..]] + [top[0].dependencies]) <==>
                  IsQueued(d, rest) || d in top[1..] || d in top[0].dependencies
        ensures IsDependency(d, packed + [top[0]]) <==> IsDependency(d, packed) || d in top[0].dependencies
      {
        QueuedOneMore(rest, top[1..], d);
        QueuedOneMore(rest + [top[1..]], top[0].dependencies, d);
        DependencyOfOneMore(packed, top[0], d);
      }
    }
  }

  lemma AllMet(root: Literal, omittable: set<Literal>, packed: seq<Literal>, omitted: set<Literal>)
    requires IsMet(root, omittable, [], packed, omitted)
    ensures forall o :: o in omitted <==> o in omittable && IsDependency(o, packed)
  {
  }

  // ----- the packer -----

  datatype Outcome = Added | Full | Missing

  /** Nothing has to be packed for what is skipped. Else the first literals, as many as there
      is room for, have to be stored, and there has to be room for one more than all of them. */
  ghost predicate IsOutcome(outcome: Outcome, needed: seq<Literal>, store: set<Literal>, room: int, skipped: bool) {
    var stored := forall i :: 0 <= i < |needed| && i < room ==> needed[i] in store;
    && (outcome.Added? <==> skipped || (stored && |needed| < room))
    && (outcome.Full? <==> !skipped && stored && |needed| >= room)
    && (outcome.Missing? <==> !skipped && !stored)
  }

  lemma OutcomeIsDecided(outcome: Outcome, packed: seq<Literal>, needed: seq<Literal>, store: set<Literal>, room: nat,
                         skipped: bool)
    requires packed <= needed && forall l :: l in packed ==> l in store
    requires skipped ==> outcome.Added?
    requires outcome.Added? ==> packed == needed && (skipped || |packed| < room)
    requires outcome.Missing? ==> |packed| < room && |packed| < |needed| && needed[|packed|] !in store
    requires outcome.Full? ==> |packed| >= room
    ensures IsOutcome(outcome, needed, store, room, skipped)
  {
    forall i | 0 <= i < |packed|
      ensures needed[i] in store
    {
      assert needed[i] == packed[i];
    }
  }

  lemma AllNeededStored(root: Literal, skip: set<Literal>, store: set<Literal>)
    requires forall l :: l in Pack([root], skip, []) ==> l in store
    ensures forall l :: IsNeeded(l, root, skip) ==> l in store
  {
    PackIsExactlyNeeded(root, skip);
  }

  /** A chain of dependencies that ends at a literal. */
  ghost predicate IsChainTo(chain: seq<Literal>, l: Literal) {
    && |chain| > 0 && chain[|chain| - 1] == l
    && forall i :: 0 < i < |chain| ==> chain[i] in chain[i - 1].dependencies
  }

  /** The content is within the limit, nothing is in it twice, and all that it depends on is
      in it or listed as an omission, with the chain for which the omission is allowed. */
  ghost predicate IsPacked(content: seq<Literal>, contentHashes: set<Literal>, omissions: map<Literal, seq<Literal>>,
                           allowed: map<Literal, seq<Literal>>, maxLiterals: nat) {
    && |content| <= maxLiterals && NoRepeats(content) && (forall l :: l in contentHashes <==> l in content)
    && (forall l, d :: l in content && d in l.dependencies ==> d in contentHashes || d in omissions)
    && (forall o :: o in omissions ==> o in allowed && omissions[o] == allowed[o])
  }

  ghost function Reversed(ls: seq<Literal>): (r: seq<Literal>)
    ensures |r| == |ls| && forall i :: 0 <= i < |r| ==> r[i] == ls[|ls| - 1 - i]
  {
    seq(|ls|, i requires 0 <= i < |ls| => ls[|ls| - 1 - i])
  }

  function LiteralsOf(ls: seq<Literal>): set<Literal> {
    set l | l in ls
  }

  ghost function Noted(omissions: map<Literal, seq<Literal>>, omitted: set<Literal>,
                 allowed: map<Literal, seq<Literal>>): map<Literal, seq<Literal>>
    requires omitted <= allowed.Keys
  {
    map o | o in omissions.Keys + omitted :: if o in omitted then allowed[o] else omissions[o]
  }

  lemma ReversedHasSame(ls: seq<Literal>)
    ensures forall l :: l in Reversed(ls) <==> l in ls
    ensures NoRepeats(ls) ==> NoRepeats(Reversed(ls))
  {
    forall l | l in ls
      ensures l in Reversed(ls)
    {
      var i :| 0 <= i < |ls| && ls[i] == l;
      assert Reversed(ls)[|ls| - 1 - i] == l;
    }
  }

  lemma PackOfSkipped(root: Literal, skip: set<Literal>)
    ensures root in skip ==> Pack([root], skip, []) == []
    ensures root !in skip ==> root in Pack([root], skip, [])
  {
    PackIsExactlyNeeded(root, skip);
    assert [root][1..] == [];
  }

  lemma NothingPacked(content: seq<Literal>, contentHashes: set<Literal>, omissions: map<Literal, seq<Literal>>,
                      allowed: map<Literal, seq<Literal>>)
    ensures content + Reversed([]) == content && contentHashes + LiteralsOf([]) == contentHashes
    ensures Noted(omissions, {}, allowed) == omissions
    ensures forall d :: !IsDependency(d, [])
  {
  }

  lemma NoRepeatsInBoth(a: seq<Literal>, b: seq<Literal>)
    requires NoRepeats(a) && NoRepeats(b) && forall l :: l in b ==> l !in a
    ensures NoRepeats(a + b)
  {
    var both := a + b;
    forall i, j | 0 <= i < j < |both|
      ensures both[i] != both[j]
    {
      if i < |a| <= j {
        assert both[j] in b;
      }
    }
  }

  lemma StaysPacked(content: seq<Literal>, contentHashes: set<Literal>, omissions: map<Literal, seq<Literal>>,
                    allowed: map<Literal, seq<Literal>>, maxLiterals: nat, root: Literal, packed: seq<Literal>,
                    omitted: set<Literal>)
    requires IsPacked(content, contentHashes, omissions, allowed, maxLiterals)
    requires packed == Pack([root], contentHashes + allowed.Keys, [])
    requires packed == [] || |packed| < maxLiterals - |content|
    requires forall o :: o in omitted <==> o in allowed.Keys - contentHashes && IsDependency(o, packed)
    ensures IsPacked(content + Reversed(packed), contentHashes + LiteralsOf(packed),
                     Noted(omissions, omitted, allowed), allowed, maxLiterals)
  {
    hide Pack, Reversed, NoRepeats, IsDependency, IsNeeded;
    var skip := contentHashes + allowed.Keys;
    PackIsExactlyNeeded(root, skip);
    PackSkips(root, skip);
    ReversedHasSame(packed);
    NoRepeatsInBoth(content, Reversed(packed));
    forall l, d | l in content + Reversed(packed) && d in l.dependencies
      ensures d in contentHashes + LiteralsOf(packed) || d in Noted(omissions, omitted, allowed)
    {
      if l in packed {
        assert IsTaken(d, skip, packed);
        HasDependency(l, d, packed);
      }
    }
  }

  lemma HasDependency(l: Literal, d: Literal, packed: seq<Literal>)
    requires l in packed && d in l.dependencies
    ensures IsDependency(d, packed)
  {
  }

  lemma PackSkips(root: Literal, skip: set<Literal>)
    ensures forall l :: l in Pack([root], skip, []) ==> l !in skip
  {
    PackTakes([root], skip, []);
  }

  /** Where a chain may start. */
  datatype Roots = Roots(initial: seq<Literal>, isRoot: Option<Literal -> bool>)

  ghost predicate StartsAt(chain: seq<Literal>, roots: Roots) {
    |chain| > 0 && (chain[0] in roots.initial || (roots.isRoot.Some? && roots.isRoot.value(chain[0])))
  }

  ghost predicate ChainsFor(refChains: map<Literal, seq<Literal>>, omittable: set<Literal>, roots: Roots) {
    refChains.Keys == omittable && forall l :: l in refChains ==>
              IsChainTo(refChains[l], l) && StartsAt(refChains[l], roots)
  }

  lemma ChainOf(refChains: map<Literal, seq<Literal>>, omittable: set<Literal>, roots: Roots, l: Literal)
    requires ChainsFor(refChains, omittable, roots) && l in omittable
    ensures l in refChains && IsChainTo(refChains[l], l) && StartsAt(refChains[l], roots)
  {
  }

  lemma InitialChains(initial: seq<Literal>, isRoot: Option<Literal -> bool>)
    ensures ChainsFor(map l | l in LiteralsOf(initial) :: [l], LiteralsOf(initial), Roots(initial, isRoot))
  {
  }

  lemma RootChain(l: Literal, roots: Roots)
    requires roots.isRoot.Some? && roots.isRoot.value(l)
    ensures IsChainTo([l], l) && StartsAt([l], roots)
  {
  }

  lemma ChainGoesOn(chain: seq<Literal>, l: Literal, d: Literal, roots: Roots)
    requires IsChainTo(chain, l) && StartsAt(chain, roots) && d in l.dependencies
    ensures IsChainTo(chain + [d], d) && StartsAt(chain + [d], roots)
  {
  }

  lemma OneMoreChain(refChains: map<Literal, seq<Literal>>, omittable: set<Literal>, roots: Roots, l: Literal,
                     chain: seq<Literal>)
    requires ChainsFor(refChains, omittable, roots) && IsChainTo(chain, l) && StartsAt(chain, roots)
    ensures ChainsFor(refChains[l := chain], omittable + {l}, roots)
  {
  }

  /** What was allowed before keeps its chain, and what has been added is stored. */
  ghost predicate OnlyStoredChains(before: map<Literal, seq<Literal>>, allowed: map<Literal, seq<Literal>>,
                                   store: set<Literal>, roots: Roots) {
    && (forall o :: o in before ==> o in allowed && allowed[o] == before[o])
    && (forall o :: o in allowed && o !in before ==>
          && o in store && StartsAt(allowed[o], roots)
          && (roots.isRoot.Some? && roots.isRoot.value(o) ==> allowed[o] == [o]))
  }

  ghost predicate WithinLimit(before: map<Literal, seq<Literal>>, allowed: map<Literal, seq<Literal>>,
                              max: Option<nat>) {
    max.Some? ==> |allowed| <= max.value || allowed == before
  }

  /** What has been queued is still in the queue, allowed or not stored, and so is what newly
      allowed literals depend on. */
  ghost predicate Covers(store: set<Literal>, before: map<Literal, seq<Literal>>, allowed: map<Literal, seq<Literal>>,
                         omittable: set<Literal>, queue: seq<Literal>) {
    && (forall l :: l in omittable && l in store ==> l in queue || l in allowed)
    && (forall l, d :: l in allowed && l !in before && d in l.dependencies ==> d in allowed || d in omittable)
  }

  lemma NothingAllowed(store: set<Literal>, initial: seq<Literal>, allowed: map<Literal, seq<Literal>>, roots: Roots,
                       max: Option<nat>)
    ensures OnlyStoredChains(allowed, allowed, store, roots) && WithinLimit(allowed, allowed, max)
    ensures Covers(store, allowed, allowed, LiteralsOf(initial), initial)
    ensures LiteralsOf(initial) <= Universe(store, initial)
  {
  }

  lemma OneMoreAllowed(before: map<Literal, seq<Literal>>, had: map<Literal, seq<Literal>>,
                       allowed: map<Literal, seq<Literal>>, store: set<Literal>, roots: Roots,
                       l: Literal, chain: seq<Literal>, max: Option<nat>)
    requires OnlyStoredChains(before, had, store, roots) && l in store && StartsAt(chain, roots)
    requires roots.isRoot.Some? && roots.isRoot.value(l) ==> chain == [l]
    requires max.Some? ==> |had| < max.value
    requires allowed.Keys == had.Keys + {l} && forall o :: o in had ==> allowed[o] == had[o]
    requires l !in had ==> allowed[l] == chain
    ensures OnlyStoredChains(before, allowed, store, roots) && WithinLimit(before, allowed, max)
  {
    hide StartsAt;
    forall o | o in allowed && o !in before
      ensures o in store && StartsAt(allowed[o], roots)
      ensures roots.isRoot.Some? && roots.isRoot.value(o) ==> allowed[o] == [o]
    {
      if o in had {
        assert allowed[o] == had[o];
      }
    }
    assert WithinLimit(before, allowed, max) by {
      KeysGrow(had, allowed, l);
    }
  }

  lemma KeysGrow(had: map<Literal, seq<Literal>>, allowed: map<Literal, seq<Literal>>, l: Literal)
    requires allowed.Keys == had.Keys + {l}
    ensures |allowed| <= |had| + 1
  {
    assert |allowed.Keys| == |allowed| && |had.Keys| == |had|;
  }

  lemma CoversNext(store: set<Literal>, before: map<Literal, seq<Literal>>, allowed: map<Literal, seq<Literal>>,
                   omittable: set<Literal>, queue: seq<Literal>, next: Literal,
                   allowed': map<Literal, seq<Literal>>, omittable': set<Literal>, queue': seq<Literal>)
    requires Covers(store, before, allowed, omittable, queue)
    requires forall l :: l in queue ==> l == next || l in queue'
    requires allowed'.Keys == allowed.Keys + if next in store then {next} else {}
    requires omittable <= omittable' && forall l :: l in omittable' && l !in omittable ==> l in queue'
    requires next in store ==> forall d :: d in next.dependencies ==> d in allowed' || d in omittable'
    ensures Covers(store, before, allowed', omittable', queue')
  {
  }

  lemma AllCovered(store: set<Literal>, initial: seq<Literal>, before: map<Literal, seq<Literal>>,
                   allowed: map<Literal, seq<Literal>>,
                   omittable: set<Literal>)
    requires Covers(store, before, allowed, omittable, []) && LiteralsOf(initial) <= omittable
    ensures forall l :: l in initial && l in store ==> l in allowed
    ensures forall l, d :: l in allowed && l !in before && d in l.dependencies && d in store ==> d in allowed
  {
  }

  /** All that can ever be queued. */
  ghost function Universe(store: set<Literal>, initial: seq<Literal>): set<Literal> {
    LiteralsOf(initial) + set l, d | l in store && d in l.dependencies :: d
  }

  lemma DependenciesAreKnown(store: set<Literal>, initial: seq<Literal>, l: Literal)
    requires l in store
    ensures LiteralsOf(l.dependencies) <= Universe(store, initial)
  {
  }

  class ObjectPacker {
    const maxLiterals: nat
    var content: seq<Literal>
    var contentHashes: set<Literal>
    var omissions: map<Literal, seq<Literal>>
    var allowedOmissions: map<Literal, seq<Literal>>

    ghost predicate Valid()
      reads this
    {
      && IsPacked(content, contentHashes, omissions, allowedOmissions, maxLiterals)
      && (forall o :: o in allowedOmissions ==> IsChainTo(allowedOmissions[o], o))
    }

    constructor (maxLiterals: nat)
      ensures Valid() && content == [] && allowedOmissions == map[] && this.maxLiterals == maxLiterals
    {
      this.maxLiterals := maxLiterals;
      content, contentHashes, omissions, allowedOmissions := [], {}, map[], map[];
    }

    ghost function Skip(): set<Literal>
      reads `contentHashes, `allowedOmissions
    {
      contentHashes + allowedOmissions.Keys
    }

    ghost function Omittable(): set<Literal>
      reads `contentHashes, `allowedOmissions
    {
      allowedOmissions.Keys - contentHashes
    }

    /** Goes down what an object depends on. When it comes to an end before it has reached the
        limit, it has packed what is needed and omitted the rest. */
    method AttemptToAdd(store: set<Literal>, hash: Literal, maxAllowedLiterals: nat)
      returns (outcome: Outcome, packed: seq<Literal>, omitted: set<Literal>)
      ensures outcome.Added? ==>
                && packed == Pack([hash], Skip(), [])
                && forall o :: o in omitted <==> o in Omittable() && IsDependency(o, packed)
      ensures packed <= Pack([hash], Skip(), []) && forall l :: l in packed ==> l in store
      ensures hash in Skip() ==> outcome.Added?
      ensures outcome.Missing? ==>
                && |packed| < maxAllowedLiterals && |packed| < |Pack([hash], Skip(), [])|
                && Pack([hash], Skip(), [])[|packed|] !in store
      ensures outcome.Added? && hash !in Skip() ==> |packed| < maxAllowedLiterals
      ensures outcome.Full? ==> |packed| >= maxAllowedLiterals
    {
      hide Pack, PackStack, StackSize, IsNeeded, IsMet, IsDependency, IsQueued;
      ghost var skip := Skip();
      var queued: seq<seq<Literal>> := if hash !in contentHashes && hash !in allowedOmissions then [[hash]] else [];
      var packedHashes: set<Literal> := {};
      packed, omitted := [], {};
      StartStack(hash, skip);
      StartsMet(hash, Omittable());
      while queued != [] && |packed| < maxAllowedLiterals
        invariant PackStack(queued, skip, packed) == Pack([hash], skip, [])
        invariant NoRepeats(packed) && forall l :: l in packed ==> l !in skip
        invariant forall l :: l in packedHashes <==> l in packed
        invariant forall l :: l in packed ==> l in store
        invariant queued == [] && hash !in skip ==> |packed| < maxAllowedLiterals
        invariant hash in skip ==> queued == []
        invariant IsMet(hash, Omittable(), queued, packed, omitted)
        decreases maxAllowedLiterals - |packed|, StackSize(queued)
      {
        StackStep(queued, skip, packed);
        assert queued == queued[..|queued| - 1] + [queued[|queued| - 1]];
        MeetsNext(hash, Omittable(), queued[..|queued| - 1], queued[|queued| - 1], packed, omitted);
        var nextHashes := queued[|queued| - 1];
        queued := queued[..|queued| - 1];
        if nextHashes != [] {
          var nextHash := nextHashes[0];
          queued := queued + [nextHashes[1..]];
          if nextHash !in contentHashes && nextHash !in packedHashes && nextHash !in omitted {
            if nextHash in allowedOmissions {
              omitted := omitted + {nextHash};
            } else {
              if nextHash !in store {
                ghost var next := queued + [nextHash.dependencies];
                PackedIsNeeded(next, skip, packed + [nextHash], hash);
                assert (packed + [nextHash])[|packed|] == nextHash;
                return Missing, packed, omitted;
              }
              packed := packed + [nextHash];
              packedHashes := packedHashes + {nextHash};
              queued := queued + [nextHash.dependencies];
            }
          }
        }
      }
      PackedIsNeeded(queued, skip, packed, hash);
      if queued == [] {
        StackIsEmpty(skip, packed);
        AllMet(hash, Omittable(), packed, omitted);
      }
      outcome := if queued == [] then Added else Full;
    }

    /** Adds an object with what it needs. It succeeds exactly when the object can be omitted
        itself or what it needs takes up less than the room that is left; otherwise nothing
        changes. An object that can be omitted is neither packed nor listed as an omission. */
    method AddObject(store: set<Literal>, hash: Literal) returns (outcome: Outcome)
      requires Valid()
      modifies `content, `contentHashes, `omissions
      ensures Valid()
      ensures !outcome.Added? || hash in old(Skip()) ==> unchanged(this)
      ensures outcome.Added? ==> hash in Skip()
      ensures outcome.Added? && hash !in old(contentHashes) ==>
                && content == old(content) + Reversed(Pack([hash], old(Skip()), []))
                && omissions.Keys == old(omissions.Keys) +
                     set o | o in old(Omittable()) && IsDependency(o, Pack([hash], old(Skip()), []))
      ensures IsOutcome(outcome, Pack([hash], old(Skip()), []), store, maxLiterals - old(|content|),
                        hash in old(Skip()))
      ensures outcome.Added? && hash !in old(Skip()) ==> forall l :: IsNeeded(l, hash, old(Skip())) ==> l in store
    {
      hide Pack, IsNeeded, IsDependency, IsPacked, Reversed, IsOutcome;
      outcome := Added;
      ContentFits();
      PackOfSkipped(hash, Skip());
      if hash in contentHashes {
        OutcomeIsDecided(Added, [], Pack([hash], Skip(), []), store, maxLiterals - |content|, true);
      } else {
        var packed, omitted;
        outcome, packed, omitted := AttemptToAdd(store, hash, maxLiterals - |content|);
        OutcomeIsDecided(outcome, packed, Pack([hash], Skip(), []), store, maxLiterals - |content|, hash in Skip());
        if outcome.Added? {
          AllNeededStored(hash, Skip(), store);
          StaysPacked(content, contentHashes, omissions, allowedOmissions, maxLiterals, hash, packed, omitted);
          NothingPacked(content, contentHashes, omissions, allowedOmissions);
          assert omitted == set o | o in Omittable() && IsDependency(o, packed);
          assert packed == [] ==> omitted == {};
          MoveToContent(packed);
          NoteOmissions(omitted);
        }
      }
    }

    lemma ContentFits()
      requires Valid()
      ensures |content| <= maxLiterals
    {
    }

    /** The packed literals go to the content, the last one first. */
    method MoveToContent(packed: seq<Literal>)
      modifies `content, `contentHashes
      ensures content == old(content) + Reversed(packed) && contentHashes == old(contentHashes) + LiteralsOf(packed)
    {
      var literals := packed;
      while literals != []
        invariant content + Reversed(literals) == old(content) + Reversed(packed)
        invariant contentHashes + LiteralsOf(literals) == old(contentHashes) + LiteralsOf(packed)
        decreases |literals|
      {
        var literal := literals[|literals| - 1];
        assert literals == literals[..|literals| - 1] + [literal];
        literals := literals[..|literals| - 1];
        content := content + [literal];
        contentHashes := contentHashes + {literal};
      }
    }

    method NoteOmissions(omitted: set<Literal>)
      requires omitted <= allowedOmissions.Keys
      modifies `omissions
      ensures omissions == Noted(old(omissions), omitted, allowedOmissions)
    {
      var rest := omitted;
      while rest != {}
        invariant rest <= omitted && omissions == Noted(old(omissions), omitted - rest, allowedOmissions)
      {
        var o :| o in rest;
        rest := rest - {o};
        omissions := omissions[o := allowedOmissions[o]];
      }
      assert omitted - rest == omitted;
    }

    /** A chain that has been given for an omission stays. */
    method AllowOmission(hash: Literal, referenceChain: seq<Literal>)
      requires Valid() && IsChainTo(referenceChain, hash)
      modifies `allowedOmissions
      ensures Valid() && allowedOmissions.Keys == old(allowedOmissions.Keys) + {hash}
      ensures forall o :: o in old(allowedOmissions) ==> allowedOmissions[o] == old(allowedOmissions)[o]
      ensures hash !in old(allowedOmissions) ==> allowedOmissions[hash] == referenceChain
    {
      if hash !in allowedOmissions {
        allowedOmissions := allowedOmissions[hash := referenceChain];
      }
    }

    /** Queues what a literal depends on, each with the chain that leads to it. */
    method QueueDependencies(literal: Literal, refChain: seq<Literal>, queue: seq<Literal>, omittable: set<Literal>,
                             refChains: map<Literal, seq<Literal>>, ghost roots: Roots)
      returns (queue': seq<Literal>, omittable': set<Literal>, refChains': map<Literal, seq<Literal>>)
      requires IsChainTo(refChain, literal) && StartsAt(refChain, roots)
      requires ChainsFor(refChains, omittable, roots) && forall l :: l in queue ==> l in omittable
      ensures ChainsFor(refChains', omittable', roots) && forall l :: l in queue' ==> l in omittable'
      ensures omittable <= omittable' <= omittable + LiteralsOf(literal.dependencies)
      ensures forall l :: l in omittable' && l !in omittable ==> l in queue'
      ensures forall l :: l in queue ==> l in queue'
      ensures forall d :: d in literal.dependencies ==> d in allowedOmissions || d in omittable'
      ensures omittable' == omittable ==> queue' == queue
    {
      hide IsChainTo, StartsAt, ChainsFor;
      queue', omittable', refChains' := queue, omittable, refChains;
      var i := 0;
      while i < |literal.dependencies|
        invariant i <= |literal.dependencies|
        invariant ChainsFor(refChains', omittable', roots) && forall l :: l in queue' ==> l in omittable'
        invariant omittable <= omittable' <= omittable + LiteralsOf(literal.dependencies)
        invariant forall l :: l in omittable' && l !in omittable ==> l in queue'
        invariant forall l :: l in queue ==> l in queue'
        invariant forall d :: d in literal.dependencies[..i] ==> d in allowedOmissions || d in omittable'
        invariant omittable' == omittable ==> queue' == queue
      {
        var dep := literal.dependencies[i];
        if dep !in allowedOmissions && dep !in omittable' {
          ChainGoesOn(refChain, literal, dep, roots);
          OneMoreChain(refChains', omittable', roots, dep, refChain + [dep]);
          omittable' := omittable' + {dep};
          queue' := queue' + [dep];
          refChains' := refChains'[dep := refChain + [dep]];
        }
        assert literal.dependencies[..i + 1] == literal.dependencies[..i] + [dep];
        i := i + 1;
      }
      assert literal.dependencies[..i] == literal.dependencies;
    }

    /** Allows the omission of some literals and of all that they lead to, as far as it is
        stored and up to a limit, each with a chain of dependencies from one of them or from
        another literal that is accepted as a root. */
    method AllowOmissionsRecursively(store: set<Literal>, initial: seq<Literal>, maxAllowedOmissions: Option<nat>,
                                     isRoot: Option<Literal -> bool>)
      requires Valid()
      modifies `allowedOmissions
      ensures Valid() && OnlyStoredChains(old(allowedOmissions), allowedOmissions, store, Roots(initial, isRoot))
      ensures WithinLimit(old(allowedOmissions), allowedOmissions, maxAllowedOmissions)
      ensures maxAllowedOmissions.None? || |allowedOmissions| < maxAllowedOmissions.value ==>
                && (forall l :: l in initial && l in store ==> l in allowedOmissions)
                && forall l, d :: l in allowedOmissions && l !in old(allowedOmissions) && d in l.dependencies ==>
                     d in store ==> d in allowedOmissions
    {
      hide IsChainTo, StartsAt, ChainsFor, IsPacked, OnlyStoredChains, WithinLimit, Covers, Universe;
      ghost var roots := Roots(initial, isRoot);
      ghost var before := allowedOmissions;
      var queue := initial;
      var omittable := LiteralsOf(initial);
      var refChains := map l | l in omittable :: [l];
      InitialChains(initial, isRoot);
      NothingAllowed(store, initial, allowedOmissions, roots, maxAllowedOmissions);
      while queue != [] && (maxAllowedOmissions.None? || |allowedOmissions| < maxAllowedOmissions.value)
        invariant Valid() && ChainsFor(refChains, omittable, roots) && forall l :: l in queue ==> l in omittable
        invariant LiteralsOf(initial) <= omittable <= Universe(store, initial)
        invariant OnlyStoredChains(before, allowedOmissions, store, roots)
        invariant WithinLimit(before, allowedOmissions, maxAllowedOmissions)
        invariant Covers(store, before, allowedOmissions, omittable, queue)
        decreases Universe(store, initial) - omittable, |queue|
      {
        var next := queue[0];
        ghost var was, seen, had := queue, omittable, allowedOmissions;
        assert queue == [next] + queue[1..];
        queue := queue[1..];
        if next in store {
          ChainOf(refChains, omittable, roots, next);
          var refChain := refChains[next];
          if isRoot.Some? && isRoot.value(next) {
            refChain := [next];
            RootChain(next, roots);
          }
          AllowOmission(next, refChain);
          OneMoreAllowed(before, had, allowedOmissions, store, roots, next, refChain, maxAllowedOmissions);
          DependenciesAreKnown(store, initial, next);
          queue, omittable, refChains := QueueDependencies(next, refChain, queue, omittable, refChains, roots);
        }
        LessIsLeft(Universe(store, initial), seen, omittable);
        CoversNext(store, before, had, seen, was, next, allowedOmissions, omittable, queue);
      }
      if queue == [] {
        AllCovered(store, initial, before, allowedOmissions, omittable);
      }
    }
  }
}
