/**
 * Android's SparseArray family (SparseBooleanArray, SparseIntArray,
 * SparseArray<T>) as a value: keys kept in strictly ascending order, one
 * value per key, so that `keyAt(i)`/`valueAt(i)` enumerate the entries in
 * key order.  The binary search of the Android implementation is not
 * modelled, and `append` is the same as `put`.
 */
module SparseArrays {
  import opened Wrappers

  /** Each element is smaller than the next one. */
  predicate StrictlyAscending(s: seq<int>) {
    forall i :: 0 < i < |s| ==> s[i - 1] < s[i]
  }

  /** In an ascending sequence every element is smaller than every later one. */
  lemma {:induction false} AscendingPairs(s: seq<int>, i: int, j: int)
    requires StrictlyAscending(s) && 0 <= i < j < |s|
    ensures s[i] < s[j]
    decreases j - i
  {
    if i + 1 < j {
      AscendingPairs(s, i + 1, j);
    }
  }

  /** An element of an ascending sequence does not occur before its position. */
  lemma AscendingFresh(s: seq<int>, t: int)
    requires StrictlyAscending(s) && 0 <= t < |s|
    ensures s[t] !in s[..t]
  {
    if s[t] in s[..t] {
      var i :| 0 <= i < t && s[i] == s[t];
      AscendingPairs(s, i, t);
    }
  }

  /** The first element is below every other one, so it occurs once. */
  lemma AscendingFirst(s: seq<int>)
    requires StrictlyAscending(s)
    ensures forall i :: 0 < i < |s| ==> s[0] < s[i]
  {
    forall i | 0 < i < |s| ensures s[0] < s[i] {
      AscendingPairs(s, 0, i);
    }
  }

  /** Putting the head of a sorted sequence in front of a sorted sequence of larger keys. */
  lemma AscendingCons(s: seq<int>, t: seq<int>)
    requires |s| > 0 && StrictlyAscending(s) && StrictlyAscending(t)
    requires forall x :: x in t ==> x in s[1..] || x > s[0]
    ensures StrictlyAscending([s[0]] + t)
  {
    if |t| > 0 {
      assert t[0] in t;
      if t[0] in s[1..] {
        var m :| 0 <= m < |s[1..]| && s[1..][m] == t[0];
        AscendingPairs(s, 0, m + 1);
      }
    }
    var u := [s[0]] + t;
    forall i | 0 < i < |u| ensures u[i - 1] < u[i] {
      if i > 1 {
        assert u[i - 1] == t[i - 2] && u[i] == t[i - 1];
      }
    }
  }

  datatype SparseArray<V> = SparseArray(keys: seq<int>, values: seq<V>) {

    predicate Valid() {
      |keys| == |values| && StrictlyAscending(keys)
    }

    function Size(): nat {
      |keys|
    }

    function KeyAt(i: int): int
      requires 0 <= i < |keys|
    {
      keys[i]
    }

    function ValueAt(i: int): V
      requires 0 <= i < |values|
    {
      values[i]
    }

    /** The array without its first entry. */
    function Rest(): (r: SparseArray<V>)
      requires Valid() && |keys| > 0
      ensures r.Valid()
    {
      SparseArray(keys[1..], values[1..])
    }

    /** The value stored under `k`, if any. */
    function Find(k: int): (r: Option<V>)
      requires Valid()
      ensures r.Some? <==> k in keys
      ensures forall i :: 0 <= i < |keys| && keys[i] == k ==> r == Some(values[i])
      decreases |keys|
    {
      if keys == [] then None
      else if keys[0] == k then AscendingFirst(keys); Some(values[0])
      else Rest().Find(k)
    }

    /** The entries as a map from key to value. */
    function Contents(): map<int, V>
      requires |keys| == |values|
      decreases |keys|
    {
      if keys == [] then map[]
      else SparseArray(keys[1..], values[1..]).Contents()[keys[0] := values[0]]
    }

    /** `get(key, default)`: the value stored under `k`, else `default`. */
    function Get(k: int, default: V): (v: V)
      requires Valid()
    {
      match Find(k)
      case Some(x) => x
      case None => default
    }

    /** `put(key, value)`: insert or overwrite, keeping the keys sorted. */
    function Put(k: int, v: V): (r: SparseArray<V>)
      requires Valid()
      ensures r.Valid()
      ensures forall x :: x in r.keys <==> x == k || x in keys
      decreases |keys|
    {
      if keys == [] then SparseArray([k], [v])
      else if k < keys[0] then SparseArray([k] + keys, [v] + values)
      else if k == keys[0] then SparseArray(keys, values[0 := v])
      else
        var t := Rest().Put(k, v);
        AscendingCons(keys, t.keys);
        SparseArray([keys[0]] + t.keys, [values[0]] + t.values)
    }

    /** `delete(key)`: remove the entry for `k`, if there is one. */
    function Delete(k: int): (r: SparseArray<V>)
      requires Valid()
      ensures r.Valid()
      ensures forall x :: x in r.keys <==> x != k && x in keys
      decreases |keys|
    {
      if keys == [] then this
      else if k == keys[0] then AscendingFirst(keys); Rest()
      else
        var t := Rest().Delete(k);
        AscendingCons(keys, t.keys);
        SparseArray([keys[0]] + t.keys, [values[0]] + t.values)
    }
  }

  function Empty<V>(): (r: SparseArray<V>)
    ensures r.Valid() && r.Size() == 0
  {
    SparseArray([], [])
  }

  /** Putting a key above every present key appends the entry. */
  lemma {:induction false} PutAbove<V>(a: SparseArray<V>, k: int, v: V)
    requires a.Valid()
    requires forall i :: 0 <= i < |a.keys| ==> a.keys[i] < k
    ensures a.Put(k, v) == SparseArray(a.keys + [k], a.values + [v])
    decreases |a.keys|
  {
    if a.keys != [] {
      var t := a.Rest();
      PutAbove(t, k, v);
      assert a.keys[0] < k;
      assert a.Put(k, v) == SparseArray([a.keys[0]] + t.Put(k, v).keys, [a.values[0]] + t.Put(k, v).values);
      assert [a.keys[0]] + (t.keys + [k]) == a.keys + [k];
      assert [a.values[0]] + (t.values + [v]) == a.values + [v];
    }
  }

  /** `put` overwrites or adds exactly the entry for its key. */
  lemma {:induction false} PutFind<V>(a: SparseArray<V>, k: int, v: V, x: int)
    requires a.Valid()
    ensures a.Put(k, v).Find(x) == if x == k then Some(v) else a.Find(x)
    decreases |a.keys|
  {
    if a.keys != [] && k > a.keys[0] {
      PutFind(a.Rest(), k, v, x);
      assert a.Put(k, v).Rest() == a.Rest().Put(k, v);
    }
  }

  /** `delete` removes exactly the entry for its key. */
  lemma {:induction false} DeleteFind<V>(a: SparseArray<V>, k: int, x: int)
    requires a.Valid()
    ensures a.Delete(k).Find(x) == if x == k then None else a.Find(x)
    decreases |a.keys|
  {
    if a.keys != [] && k != a.keys[0] {
      DeleteFind(a.Rest(), k, x);
      assert a.Delete(k).Rest() == a.Rest().Delete(k);
    }
  }
  /** Deleting the key at index `i` closes the gap at `i`. */
  lemma {:induction false} DeleteAt<V>(a: SparseArray<V>, i: int)
    requires a.Valid() && 0 <= i < |a.keys|
    ensures a.Delete(a.keys[i]) ==
      SparseArray(a.keys[..i] + a.keys[i + 1..], a.values[..i] + a.values[i + 1..])
    decreases i
  {
    if i > 0 {
      var t, k := a.Rest(), a.keys[i];
      AscendingPairs(a.keys, 0, i);
      assert t.keys[i - 1] == k;
      DeleteAt(t, i - 1);
      var d := t.Delete(k);
      assert a.Delete(k) == SparseArray([a.keys[0]] + d.keys, [a.values[0]] + d.values);
      Splice(a.keys, i);
      Splice(a.values, i);
    }
  }

  /** Removing element `i > 0` commutes with splitting off the head. */
  lemma Splice<X>(s: seq<X>, i: int)
    requires 0 < i < |s|
    ensures [s[0]] + (s[1..][..i - 1] + s[1..][i..]) == s[..i] + s[i + 1..]
  {
    assert [s[0]] + s[1..][..i - 1] == s[..i];
    assert s[1..][i..] == s[i + 1..];
  }

  /** `Find` reads the map of entries. */
  lemma {:induction false} FindContents<V>(a: SparseArray<V>, x: int)
    requires a.Valid()
    ensures a.Find(x) == if x in a.Contents() then Some(a.Contents()[x]) else None
    decreases |a.keys|
  {
    if a.keys != [] {
      FindContents(a.Rest(), x);
    }
  }

  /** The map of entries has exactly the keys of the array. */
  lemma ContentsKeys<V>(a: SparseArray<V>, x: int)
    requires a.Valid()
    ensures x in a.Contents() <==> x in a.keys
  {
    FindContents(a, x);
  }

  /** `put` is a map update of the entries. */
  lemma PutContents<V>(a: SparseArray<V>, k: int, v: V)
    requires a.Valid()
    ensures a.Put(k, v).Contents() == a.Contents()[k := v]
  {
    var m, n := a.Put(k, v).Contents(), a.Contents()[k := v];
    forall x ensures (x in m <==> x in n) && (x in n ==> m[x] == n[x]) {
      PutFind(a, k, v, x);
      FindContents(a, x);
      FindContents(a.Put(k, v), x);
    }
  }
}
