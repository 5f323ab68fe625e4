/** Multi-maps, and the finite relations that they stand for: a field that holds a multi-map
    in the source holds a set of pairs in the other modules. */
module MultiMaps {

  type Rel<!K(==), !V(==)> = set<(K, V)>

  /** The values of one key; empty when the key is absent. */
  function Get<K(==,!new), V(==,!new)>(r: Rel<K, V>, key: K): (vs: set<V>)
    ensures forall v :: v in vs <==> (key, v) in r
  {
    set p | p in r && p.0 == key :: p.1
  }

  predicate HasKey<K(==,!new), V(==,!new)>(r: Rel<K, V>, key: K) {
    exists p :: p in r && p.0 == key
  }

  /** Relations with the same pairs are equal. */
  lemma SameRelation<K(!new), V(!new)>(r: Rel<K, V>, t: Rel<K, V>)
    requires forall k, v :: (k, v) in r <==> (k, v) in t
    ensures r == t
  {
    forall p | p in r + t
      ensures p in r && p in t
    {
      assert p == (p.0, p.1);
    }
  }

  /** The relation that a map of sets stands for. */
  function PairsOf<K(==,!new), V(==,!new)>(inner: map<K, set<V>>): (r: Rel<K, V>)
    ensures forall k, v :: (k, v) in r <==> k in inner && v in inner[k]
  {
    set k, v | k in inner && v in inner[k] :: (k, v)
  }

  /** The values of a key, or none. */
  function Values<K(==,!new), V(==,!new)>(inner: map<K, set<V>>, key: K): set<V> {
    if key in inner then inner[key] else {}
  }

  /** Keys without values are dropped. */
  function Put<K(==,!new), V(==,!new)>(inner: map<K, set<V>>, key: K, values: set<V>): map<K, set<V>> {
    if values == {} then inner - {key} else inner[key := values]
  }

  lemma PairsOfPut<K(!new), V(!new)>(inner: map<K, set<V>>, key: K, values: set<V>)
    ensures forall k, v :: (k, v) in PairsOf(Put(inner, key, values)) <==>
              if k == key then v in values else (k, v) in PairsOf(inner)
  {
  }

  /** A multi-map counts its pairs. */
  class MultiMap<K(==,!new), V(==,!new)> {
    var inner: map<K, set<V>>
    var size: int

    ghost function Pairs(): Rel<K, V>
      reads `inner
    {
      PairsOf(inner)
    }

    ghost predicate NoEmptySets()
      reads `inner
    {
      forall k :: k in inner ==> inner[k] != {}
    }

    ghost predicate Valid()
      reads this
    {
      NoEmptySets() && size == |Pairs()|
    }

    constructor ()
      ensures Valid() && Pairs() == {}
    {
      inner, size := map[], 0;
    }

    method Add(key: K, value: V)
      requires Valid()
      modifies this
      ensures Valid() && Pairs() == old(Pairs()) + {(key, value)}
    {
      PairsOfPut(inner, key, Values(inner, key) + {value});
      assert value in Values(inner, key) <==> (key, value) in Pairs();
      if value !in Values(inner, key) {
        size := size + 1;
      } else {
        assert Pairs() + {(key, value)} == Pairs();
      }
      inner := inner[key := Values(inner, key) + {value}];
      SameRelation(Pairs(), old(Pairs()) + {(key, value)});
    }

    method Delete(key: K, value: V) returns (deleted: bool)
      requires Valid()
      modifies this
      ensures Valid() && Pairs() == old(Pairs()) - {(key, value)}
      ensures deleted <==> (key, value) in old(Pairs())
    {
      deleted := value in Values(inner, key);
      if deleted {
        PairsOfPut(inner, key, inner[key] - {value});
        inner := Put(inner, key, inner[key] - {value});
        size := size - 1;
      }
      SameRelation(Pairs(), old(Pairs()) - {(key, value)});
    }

    method DeleteKey(key: K) returns (deleted: bool)
      requires Valid()
      modifies this
      ensures Valid() && forall k, v :: (k, v) in Pairs() <==> (k, v) in old(Pairs()) && k != key
      ensures deleted <==> Get(old(Pairs()), key) != {}
    {
      deleted := key in inner;
      ghost var mine := set v | v in Values(inner, key) :: (key, v);
      if deleted {
        var v :| v in inner[key];
        assert v in Get(Pairs(), key);
        PairsCount(key, inner[key], mine);
        size := size - |inner[key]|;
        inner := inner - {key};
      }
      SameRelation(Pairs(), old(Pairs()) - mine);
    }

    method ValuesOf(key: K) returns (values: set<V>)
      ensures values == Get(Pairs(), key)
    {
      values := Values(inner, key);
    }

    method ContainsKey(key: K) returns (has: bool)
      requires Valid()
      ensures has <==> HasKey(Pairs(), key)
    {
      has := key in inner;
      if has {
        var v :| v in inner[key];
        assert (key, v) in Pairs();
      }
    }

    /** A copy has the same pairs, but its counter starts again: it is right only if there
        are no pairs. */
    method Clone() returns (clone: MultiMap<K, V>)
      requires Valid()
      ensures fresh(clone) && clone.Pairs() == Pairs()
      ensures clone.Valid() <==> Pairs() == {}
    {
      clone := new MultiMap();
      clone.inner := inner;
    }
  }

  lemma {:induction false} PairsCount<K(!new), V(!new)>(key: K, values: set<V>, pairs: set<(K, V)>)
    requires pairs == set v | v in values :: (key, v)
    ensures |pairs| == |values|
    decreases values
  {
    if values == {} {
      assert pairs == {};
    } else {
      var v :| v in values;
      PairsCount(key, values - {v}, pairs - {(key, v)});
    }
  }
}
