/** A map of sorted arrays of strings: every key keeps its values in order, with
    repetitions, and a key without values is dropped. */
module ArrayMaps {
  import opened Ordinals

  type ArrayMap = map<string, seq<string>>

  predicate LessEq(a: string, b: string) {
    a == b || Less(a, b)
  }

  ghost predicate Ascending(s: seq<string>) {
    forall i, j :: 0 <= i < j < |s| ==> LessEq(s[i], s[j])
  }

  lemma LessEqTransitive(a: string, b: string, c: string)
    requires LessEq(a, b) && LessEq(b, c)
    ensures LessEq(a, c)
  {
    if a != b && b != c {
      LessTransitive(a, b, c);
    }
  }

  lemma LessEqTotal(a: string, b: string)
    ensures LessEq(a, b) || LessEq(b, a)
    ensures LessEq(a, b) && LessEq(b, a) ==> a == b
  {
    LessTrichotomy(a, b);
  }

  function Row(m: ArrayMap, key: string): seq<string> {
    if key in m then m[key] else []
  }

  /** Pushing a value on an ordered array and sorting it again. */
  function Insert(s: seq<string>, v: string): (r: seq<string>)
    ensures multiset(r) == multiset(s) + multiset{v}
  {
    if s == [] then [v]
    else if LessEq(v, s[0]) then [v] + s
    else
      assert s == [s[0]] + s[1..];
      [s[0]] + Insert(s[1..], v)
  }

  lemma {:induction false} InsertAscending(s: seq<string>, v: string)
    requires Ascending(s)
    ensures Ascending(Insert(s, v))
  {
    if s == [] {
    } else if LessEq(v, s[0]) {
      forall j | 0 <= j < |s|
        ensures LessEq(v, s[j])
      {
        LessEqTransitive(v, s[0], s[j]);
      }
    } else {
      LessEqTotal(v, s[0]);
      InsertAscending(s[1..], v);
      forall x | x in Insert(s[1..], v)
        ensures LessEq(s[0], x)
      {
        assert x in multiset(Insert(s[1..], v));
        assert x == v || x in s[1..];
      }
    }
  }

  /** Splicing out the first occurrence of a value, if there is one. */
  function Remove(s: seq<string>, v: string): (r: seq<string>)
    ensures multiset(r) == multiset(s) - multiset{v}
  {
    if s == [] then []
    else
      assert s == [s[0]] + s[1..];
      if s[0] == v then s[1..] else [s[0]] + Remove(s[1..], v)
  }

  lemma {:induction false} RemoveAscending(s: seq<string>, v: string)
    requires Ascending(s)
    ensures Ascending(Remove(s, v))
  {
    if s != [] && s[0] != v {
      RemoveAscending(s[1..], v);
      forall x | x in Remove(s[1..], v)
        ensures LessEq(s[0], x)
      {
        assert x in multiset(Remove(s[1..], v));
        assert x in s[1..];
      }
    }
  }

  function Add(m: ArrayMap, key: string, v: string): ArrayMap {
    m[key := Insert(Row(m, key), v)]
  }

  function Delete(m: ArrayMap, key: string, v: string): ArrayMap {
    var rest := Remove(Row(m, key), v);
    if rest == [] then m - {key} else m[key := rest]
  }

  ghost predicate Valid(m: ArrayMap) {
    forall k :: k in m ==> m[k] != [] && Ascending(m[k])
  }

  /** How often a value is stored under a key. */
  ghost function Count(m: ArrayMap, key: string, v: string): nat {
    if key in m then multiset(m[key])[v] else 0
  }

  lemma AddKeeps(m: ArrayMap, key: string, v: string)
    requires Valid(m)
    ensures Valid(Add(m, key, v))
    ensures forall k, w :: Count(Add(m, key, v), k, w) == Count(m, k, w) + if k == key && w == v then 1 else 0
  {
    InsertAscending(Row(m, key), v);
    assert |Insert(Row(m, key), v)| == |multiset(Insert(Row(m, key), v))| > 0;
  }

  lemma DeleteKeeps(m: ArrayMap, key: string, v: string)
    requires Valid(m) && Count(m, key, v) > 0
    ensures Valid(Delete(m, key, v))
    ensures forall k, w :: Count(Delete(m, key, v), k, w) == Count(m, k, w) - if k == key && w == v then 1 else 0
  {
    hide Ascending, Remove, Insert;
    RemoveAscending(Row(m, key), v);
  }

  /** The number of values, with repetitions. */
  ghost function Total(m: ArrayMap): nat {
    if m == map[] then 0
    else
      var k :| k in m;
      |m[k]| + Total(m - {k})
  }

  lemma {:induction false} TotalOneLess(m: ArrayMap, key: string)
    requires key in m
    ensures Total(m) == |m[key]| + Total(m - {key})
    decreases m.Keys
  {
    var k :| k in m && Total(m) == |m[k]| + Total(m - {k});
    if k != key {
      TotalOneLess(m - {k}, key);
      TotalOneLess(m - {key}, k);
      assert m - {k} - {key} == m - {key} - {k};
    }
  }

  lemma TotalWithRow(m: ArrayMap, key: string, row: seq<string>)
    ensures Total(m[key := row]) == Total(m) - |Row(m, key)| + |row|
  {
    TotalOneLess(m[key := row], key);
    assert m[key := row] - {key} == m - {key};
    if key in m {
      TotalOneLess(m, key);
    } else {
      assert m - {key} == m;
    }
  }

  /** The map that the array keeps for each direction. */
  class SortedArrayMap {
    var inner: ArrayMap
    var size: int

    ghost predicate IsExact()
      reads this
    {
      Valid(inner) && size == Total(inner)
    }

    constructor ()
      ensures IsExact() && inner == map[]
    {
      inner, size := map[], 0;
    }

    method AddValue(key: string, value: string)
      requires IsExact()
      modifies this
      ensures IsExact() && inner == Add(old(inner), key, value)
    {
      AddKeeps(inner, key, value);
      TotalWithRow(inner, key, Insert(Row(inner, key), value));
      InsertGrows(Row(inner, key), value);
      inner := inner[key := Insert(Row(inner, key), value)];
      size := size + 1;
    }

    method DeleteValue(key: string, value: string) returns (deleted: bool)
      requires IsExact()
      modifies this
      ensures IsExact() && (deleted <==> Count(old(inner), key, value) > 0)
      ensures inner == if deleted then Delete(old(inner), key, value) else old(inner)
    {
      deleted := value in Row(inner, key);
      assert deleted <==> Count(inner, key, value) > 0;
      if deleted {
        DeleteKeeps(inner, key, value);
        var rest := Remove(Row(inner, key), value);
        RemoveShrinks(Row(inner, key), value);
        TotalOneLess(inner, key);
        TotalWithRow(inner, key, rest);
        size := size - 1;
        inner := if rest == [] then inner - {key} else inner[key := rest];
      }
    }
  }

  lemma InsertGrows(s: seq<string>, v: string)
    ensures |Insert(s, v)| == |s| + 1
  {
  }

  lemma RemoveShrinks(s: seq<string>, v: string)
    requires v in s
    ensures |Remove(s, v)| == |s| - 1
  {
  }
}
