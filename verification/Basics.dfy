/** Shared value types: optional values, results that carry an error, and insertion-ordered
    dictionaries (a Python `dict` iterates in the order in which keys were first stored). */
module Basics {

  datatype Option<+T> = None | Some(value: T)

  datatype Result<+T, +E> = Ok(value: T) | Err(error: E)

  datatype RawDict<K(==), V> = Dict(keys: seq<K>, values: map<K, V>)
  {
    ghost predicate Valid() {
      && (forall k | k in keys :: k in values)
      && (forall k | k in values :: k in keys)
      && NoDuplicates(keys)
    }

    /** Storing under a present key keeps the key's position; a new key goes last. */
    function Put(k: K, v: V): (d: RawDict<K, V>)
      requires Valid()
      ensures d.Valid()
      ensures d.values == values[k := v]
      ensures d.keys == if k in values then keys else keys + [k]
    {
      if k in values then Dict(keys, values[k := v]) else Dict(keys + [k], values[k := v])
    }
  }

  type Dict<K(==), V> = d: RawDict<K, V> | d.Valid() witness Dict([], map[])

  ghost predicate NoDuplicates<T>(s: seq<T>) {
    forall i, j :: 0 <= i < j < |s| ==> s[i] != s[j]
  }

  function Elements<T(==)>(s: seq<T>): set<T> {
    set x | x in s
  }

  lemma {:induction false} DistinctCount<T>(s: seq<T>)
    requires NoDuplicates(s)
    ensures |Elements(s)| == |s|
  {
    if s != [] {
      var front := s[..|s| - 1];
      DistinctCount(front);
      assert s == front + [s[|s| - 1]];
      assert Elements(s) == Elements(front) + {s[|s| - 1]};
    }
  }

  lemma SubsetCount<T>(small: set<T>, large: set<T>)
    requires small <= large
    ensures |small| <= |large|
  {
    assert large == small + (large - small);
  }

  /** The pigeonhole principle for sequences: distinct elements drawn from `pool` number at most `|pool|`. */
  lemma Pigeonhole<T>(s: seq<T>, pool: seq<T>)
    requires NoDuplicates(s) && NoDuplicates(pool)
    requires forall x | x in s :: x in pool
    ensures |s| <= |pool|
  {
    DistinctCount(s);
    DistinctCount(pool);
    SubsetCount(Elements(s), Elements(pool));
  }

  function Count<T(==)>(s: seq<T>, x: T): nat {
    if s == [] then 0 else Count(s[..|s| - 1], x) + if s[|s| - 1] == x then 1 else 0
  }

  lemma ConcatAssociates<T>(a: seq<T>, b: seq<T>, c: seq<T>)
    ensures a + b + c == a + (b + c)
  {}
}
