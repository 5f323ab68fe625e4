/** Replicas of a mutable array: what they show after the same insertions and deletions, in
    whatever causal order each of them has applied these. */
module ArrayReplicas {
  import opened Hashing
  import opened Ordinals
  import opened ArrayListings
  import opened CausalOps
  import opened MutableSets
  import opened MutableArrays

  /** The hashes of ops, and the ordinals that insertions carry besides their elements. */
  datatype Coding = Coding(hash: Op -> Hash, ordinal: Op -> Ordinal)

  ghost predicate IsInjective(c: Coding) {
    forall a, b :: c.hash(a) == c.hash(b) ==> a == b
  }

  /** Insertions are additions at an ordinal; a deletion names insertions of its element. */
  ghost predicate IsArrayOp(op: Op, c: Coding) {
    IsSetOp(op) && (op.kind.Add? ==> IsOrdinal(c.ordinal(op)))
  }

  ghost function EntryOf(op: Op, c: Coding): Entry
    requires op.kind.Add?
  {
    Entry(c.ordinal(op), op.kind.element.bytes)
  }

  function HashesOf(ops: set<Op>, c: Coding): set<Hash> {
    set o | o in ops :: c.hash(o)
  }

  /** The insert ops in force once the ops of a log have been applied. */
  ghost function LiveEntries(log: seq<Op>, c: Coding): map<Hash, Entry> {
    if log == [] then map[]
    else
      var live, op := LiveEntries(log[..|log| - 1], c), log[|log| - 1];
      match op.kind
      case Add(_) => live[c.hash(op) := EntryOf(op, c)]
      case DeleteAdds(e, deleted) => AfterDelete(live, e.bytes, HashesOf(deleted, c))
      case _ => live
  }

  /** They are the additions that are live in the sense of a set, each with its entry. */
  ghost predicate AreLive(live: map<Hash, Entry>, log: seq<Op>, c: Coding) {
    && (forall a :: IsLive(a, log) ==> c.hash(a) in live && live[c.hash(a)] == EntryOf(a, c))
    && (forall id :: id in live ==> exists a :: IsLive(a, log) && c.hash(a) == id)
  }

  lemma OneMoreLive(live: map<Hash, Entry>, log: seq<Op>, op: Op, c: Coding)
    requires AreLive(live, log, c) && IsInjective(c) && op !in log && op.kind.Add?
    ensures AreLive(live[c.hash(op) := EntryOf(op, c)], log + [op], c) && c.hash(op) !in live
  {
    hide IsLive;
    forall a
      ensures IsLive(a, log + [op]) <==> a == op || IsLive(a, log)
      ensures IsLive(a, log) ==> a in log
    {
      LiveAfter(log, op, a);
      LiveIsOneOf(a, log);
    }
  }

  lemma LiveIsOneOf(a: Op, log: seq<Op>)
    ensures IsLive(a, log) ==> a in log && a.kind.Add?
  {
  }

  lemma SomeLessLive(live: map<Hash, Entry>, log: seq<Op>, op: Op, c: Coding)
    requires AreLive(live, log, c) && IsInjective(c) && op !in log && op.kind.DeleteAdds? && IsSetOp(op)
    ensures AreLive(AfterDelete(live, op.kind.element.bytes, HashesOf(op.kind.deleted, c)), log + [op], c)
  {
    hide IsLive;
    var after := AfterDelete(live, op.kind.element.bytes, HashesOf(op.kind.deleted, c));
    forall a
      ensures IsLive(a, log + [op]) <==> IsLive(a, log) && a !in op.kind.deleted
      ensures IsLive(a, log) ==> a.kind.Add?
      ensures c.hash(a) in HashesOf(op.kind.deleted, c) <==> a in op.kind.deleted
    {
      LiveAfter(log, op, a);
      LiveIsOneOf(a, log);
    }
    forall id | id in after
      ensures exists a :: IsLive(a, log + [op]) && c.hash(a) == id
    {
      var a :| IsLive(a, log) && c.hash(a) == id;
      assert live[id] == EntryOf(a, c);
    }
  }

  lemma {:induction false} LiveEntriesAreLive(log: seq<Op>, c: Coding)
    requires IsInjective(c) && (forall o :: o in log ==> IsSetOp(o))
    requires forall i, j :: 0 <= i < j < |log| ==> log[i] != log[j]
    ensures AreLive(LiveEntries(log, c), log, c)
    decreases |log|
  {
    hide IsLive, AreLive, IsInjective, AfterDelete;
    if log == [] {
      NothingIsLive(c);
    } else {
      var init, op := log[..|log| - 1], log[|log| - 1];
      assert log == init + [op];
      LiveEntriesAreLive(init, c);
      assert op in log && IsSetOp(op);
      if op.kind.Add? {
        OneMoreLive(LiveEntries(init, c), init, op, c);
      } else {
        SomeLessLive(LiveEntries(init, c), init, op, c);
      }
    }
  }

  lemma NothingIsLive(c: Coding)
    ensures AreLive(map[], [], c)
  {
  }

  /** Applies an op that a replica has not applied before. */
  method Mutate(mutableArray: MutableArray, op: Op, c: Coding, ghost log: seq<Op>)
    requires mutableArray.Valid() && IsArrayOp(op, c) && IsInjective(c)
    requires InCausalOrder(log + [op]) && forall o :: o in log ==> IsSetOp(o)
    requires mutableArray.live == LiveEntries(log, c)
    modifies mutableArray
    ensures mutableArray.Valid() && mutableArray.live == LiveEntries(log + [op], c)
  {
    hide MutableArray.Valid, LiveEntries, AfterDelete;
    NewIsNotLive(log, op, c);
    OneMoreEntry(log, op, c);
    if op.kind.Add? {
      mutableArray.MutateInsert(c.hash(op), op.kind.element.bytes, c.ordinal(op));
    } else {
      mutableArray.MutateDelete(op.kind.element.bytes, HashesOf(op.kind.deleted, c));
    }
  }

  lemma NewIsNotLive(log: seq<Op>, op: Op, c: Coding)
    requires InCausalOrder(log + [op]) && IsInjective(c) && forall o :: o in log ==> IsSetOp(o)
    ensures c.hash(op) !in LiveEntries(log, c)
  {
    hide IsLive, LiveEntries;
    var longer := log + [op];
    assert forall i :: 0 <= i < |log| ==> longer[i] == log[i] && log[i] != longer[|log|];
    LiveEntriesAreLive(log, c);
    if c.hash(op) in LiveEntries(log, c) {
      var a :| IsLive(a, log) && c.hash(a) == c.hash(op);
      LiveIsOneOf(a, log);
      assert false;
    }
  }

  lemma OneMoreEntry(log: seq<Op>, op: Op, c: Coding)
    ensures op.kind.Add? ==> LiveEntries(log + [op], c) == LiveEntries(log, c)[c.hash(op) := EntryOf(op, c)]
    ensures op.kind.DeleteAdds? ==>
              LiveEntries(log + [op], c) ==
              AfterDelete(LiveEntries(log, c), op.kind.element.bytes, HashesOf(op.kind.deleted, c))
  {
    assert (log + [op])[..|log|] == log;
  }

  // ----- convergence -----

  /** All replicas that have applied the ops of `s` hold the same entries. */
  ghost predicate EntriesAgree(s: set<Op>, c: Coding) {
    forall l, m :: IsOrderOf(l, s) && IsOrderOf(m, s) ==> LiveEntries(l, c) == LiveEntries(m, c)
  }

  lemma SameLiveSameEntries(l: seq<Op>, m: seq<Op>, s: set<Op>, c: Coding)
    requires IsOrderOf(l, s) && IsOrderOf(m, s) && IsInjective(c) && forall o :: o in s ==> IsSetOp(o)
    ensures LiveEntries(l, c) == LiveEntries(m, c) <==> forall a :: IsLive(a, l) <==> IsLive(a, m)
  {
    hide IsLive, LiveEntries;
    LiveEntriesAreLive(l, c);
    LiveEntriesAreLive(m, c);
    var p, q := LiveEntries(l, c), LiveEntries(m, c);
    if p == q {
      forall a
        ensures IsLive(a, l) <==> IsLive(a, m)
      {
        LiveIsHeld(p, l, a, c);
        LiveIsHeld(q, m, a, c);
      }
    }
    if forall a :: IsLive(a, l) <==> IsLive(a, m) {
      HeldAlike(p, q, l, m, c);
      HeldAlike(q, p, m, l, c);
    }
  }

  lemma LiveIsHeld(live: map<Hash, Entry>, log: seq<Op>, a: Op, c: Coding)
    requires AreLive(live, log, c) && IsInjective(c)
    ensures IsLive(a, log) <==> c.hash(a) in live
  {
    hide IsLive;
  }

  lemma HeldAlike(p: map<Hash, Entry>, q: map<Hash, Entry>, l: seq<Op>, m: seq<Op>, c: Coding)
    requires AreLive(p, l, c) && AreLive(q, m, c) && forall a :: IsLive(a, l) ==> IsLive(a, m)
    ensures forall id :: id in p ==> id in q && q[id] == p[id]
  {
    hide IsLive;
  }

  /** Replicas hold the same entries in every two causal orders if and only if each insertion
      that some deletion names is named by a later one. */
  lemma EntriesAgreeExactlyWhen(s: set<Op>, c: Coding)
    requires PrevsApplied(s) && IsInjective(c) && forall o :: o in s ==> IsSetOp(o)
    ensures EntriesAgree(s, c) <==> forall a :: a in s && IsNamed(a, s) ==> IsNamedLater(a, s)
  {
    hide IsLive, IsOrderOf, LiveEntries, IsNamed, IsNamedLater, IsInjective;
    ReplicasAgreeExactlyWhen(s);
    forall l, m | IsOrderOf(l, s) && IsOrderOf(m, s)
      ensures LiveEntries(l, c) == LiveEntries(m, c) <==> forall a :: IsLive(a, l) <==> IsLive(a, m)
    {
      SameLiveSameEntries(l, m, s, c);
    }
  }

  /** And then they show the same elements in the same order. */
  lemma ReplicasShowTheSame(a: MutableArray, b: MutableArray, l: seq<Op>, m: seq<Op>, s: set<Op>, c: Coding)
    requires PrevsApplied(s) && IsInjective(c) && forall o :: o in s ==> IsSetOp(o)
    requires forall o :: o in s && IsNamed(o, s) ==> IsNamedLater(o, s)
    requires IsOrderOf(l, s) && IsOrderOf(m, s) && a.live == LiveEntries(l, c) && b.live == LiveEntries(m, c)
    requires a.Valid() && b.Valid() && a.duplicates == b.duplicates && !a.needToRebuild && !b.needToRebuild
    ensures a.entries == b.entries
  {
    hide IsLive, IsOrderOf, LiveEntries, IsNamed, IsNamedLater, IsInjective, Visible, IsListing, IsBagOf;
    EntriesAgreeExactlyWhen(s, c);
    BagUnique(a.bag, b.bag, a.live);
    var k :| IsListing(k, a.bag) && a.entries == Visible(k, a.duplicates);
    var n :| IsListing(n, b.bag) && b.entries == Visible(n, b.duplicates);
    ListingUnique(k, n, a.bag);
  }
}
