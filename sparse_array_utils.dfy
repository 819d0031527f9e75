/**
 * SparseArrayUtils: merging sparse arrays, the contiguous key range of a
 * boolean sparse array, and the cursor-based entry iterators.
 */
module SparseArrayUtils {
  import opened Wrappers
  import opened SparseArrays

  // ---------------------------------------------------------------- combine

  predicate AllValid<V>(arrays: seq<SparseArray<V>>) {
    forall j :: 0 <= j < |arrays| ==> arrays[j].Valid()
  }

  /**
   * Reference definition: the entries of the first `n` arrays merged as maps,
   * a later array's value for a key winning over an earlier one's.
   */
  function Merged<V>(arrays: seq<SparseArray<V>>, n: nat): map<int, V>
    requires n <= |arrays| && AllValid(arrays)
  {
    if n == 0 then map[] else Merged(arrays, n - 1) + arrays[n - 1].Contents()
  }

  /** The entries with index below `n`, as a map built from the left. */
  function PrefixContents<V>(a: SparseArray<V>, n: nat): map<int, V>
    requires a.Valid() && n <= a.Size()
  {
    if n == 0 then map[] else PrefixContents(a, n - 1)[a.keys[n - 1] := a.values[n - 1]]
  }

  lemma UpdatesCommute<V>(m: map<int, V>, k: int, v: V, k': int, v': V)
    requires k != k'
    ensures m[k := v][k' := v'] == m[k' := v'][k := v]
  {
    var l, r := m[k := v][k' := v'], m[k' := v'][k := v];
    assert forall x :: x in l <==> x in r;
    assert forall x :: x in l ==> l[x] == r[x];
  }

  /** Building from the left or from the right gives the same map, the keys being distinct. */
  lemma {:induction false} PrefixContentsRest<V>(a: SparseArray<V>, n: nat)
    requires a.Valid() && 0 < n <= a.Size()
    ensures PrefixContents(a, n) == PrefixContents(a.Rest(), n - 1)[a.keys[0] := a.values[0]]
  {
    if n > 1 {
      PrefixContentsRest(a, n - 1);
      assert a.Rest().keys[n - 2] == a.keys[n - 1] && a.Rest().values[n - 2] == a.values[n - 1];
      AscendingPairs(a.keys, 0, n - 1);
      UpdatesCommute(PrefixContents(a.Rest(), n - 2), a.keys[0], a.values[0], a.keys[n - 1], a.values[n - 1]);
    }
  }

  lemma {:induction false} PrefixContentsAll<V>(a: SparseArray<V>)
    requires a.Valid()
    ensures PrefixContents(a, a.Size()) == a.Contents()
    decreases |a.keys|
  {
    if a.keys != [] {
      PrefixContentsRest(a, a.Size());
      PrefixContentsAll(a.Rest());
    }
  }

  lemma MergeUpdate<V>(m: map<int, V>, p: map<int, V>, k: int, v: V)
    ensures (m + p)[k := v] == m + p[k := v]
  {
    var l, r := (m + p)[k := v], m + p[k := v];
    assert forall x :: x in l <==> x in r;
    assert forall x :: x in l ==> l[x] == r[x];
  }

  /** One step of the inner loop of `combine`: putting entry `i` of `current`. */
  lemma PutEntryStep<V>(combined: SparseArray<V>, base: map<int, V>, current: SparseArray<V>, i: nat)
    requires combined.Valid() && current.Valid() && i < current.Size()
    requires combined.Contents() == base + PrefixContents(current, i)
    ensures combined.Put(current.keys[i], current.values[i]).Contents() == base + PrefixContents(current, i + 1)
  {
    var k, v := current.keys[i], current.values[i];
    PutContents(combined, k, v);
    MergeUpdate(base, PrefixContents(current, i), k, v);
  }

  /** The inner loop of `combine`: append every entry of `current`, in index order. */
  method AppendAll<V>(combined: SparseArray<V>, current: SparseArray<V>) returns (r: SparseArray<V>)
    requires combined.Valid() && current.Valid()
    ensures r.Valid() && r.Contents() == combined.Contents() + current.Contents()
  {
    r := combined;
    var i := 0;
    while i < current.Size()
      invariant 0 <= i <= current.Size()
      invariant r.Valid() && r.Contents() == combined.Contents() + PrefixContents(current, i)
    {
      PutEntryStep(r, combined.Contents(), current, i);
      r := r.Put(current.KeyAt(i), current.ValueAt(i));
      i := i + 1;
    }
    PrefixContentsAll(current);
  }

  /**
   * `combine(arrays...)`, both the boolean and the int overload: every entry of
   * every argument is appended, arrays in argument order, so the result holds
   * the merged entries, a later argument winning on a shared key.
   */
  method Combine<V>(arrays: seq<SparseArray<V>>) returns (combined: SparseArray<V>)
    requires AllValid(arrays)
    ensures combined.Valid() && combined.Contents() == Merged(arrays, |arrays|)
  {
    combined := Empty();
    var a := 0;
    while a < |arrays|
      invariant 0 <= a <= |arrays|
      invariant combined.Valid() && combined.Contents() == Merged(arrays, a)
    {
      combined := AppendAll(combined, arrays[a]);
      a := a + 1;
    }
  }

  lemma {:induction false} MergedKeys<V>(arrays: seq<SparseArray<V>>, n: nat, k: int)
    requires n <= |arrays| && AllValid(arrays)
    ensures k in Merged(arrays, n) <==> exists j :: 0 <= j < n && k in arrays[j].keys
  {
    if n > 0 {
      MergedKeys(arrays, n - 1, k);
      ContentsKeys(arrays[n - 1], k);
    }
  }

  /** Hence the keys of `combine(arrays...)` are exactly the union of the arguments' keys. */
  lemma CombinedKeys<V>(arrays: seq<SparseArray<V>>, c: SparseArray<V>, k: int)
    requires AllValid(arrays) && c.Valid() && c.Contents() == Merged(arrays, |arrays|)
    ensures k in c.keys <==> exists j :: 0 <= j < |arrays| && k in arrays[j].keys
  {
    MergedKeys(arrays, |arrays|, k);
    ContentsKeys(c, k);
  }

  // --------------------------------------------------------------- getRange

  datatype KeyRange = KeyRange(first: int, last: int)

  /** Every key is one more than the key before it. */
  predicate Contiguous(keys: seq<int>) {
    forall i :: 0 < i < |keys| ==> keys[i] == keys[i - 1] + 1
  }

  /**
   * What `getRange` computes: nothing for no keys, `(k, k)` for one key,
   * nothing when two neighbouring keys differ by more than one, and otherwise
   * `(min(0, first key), max(0, last key))`, because both accumulators start at 0.
   */
  function RangeAsWritten(keys: seq<int>): Option<KeyRange> {
    if |keys| == 0 then None
    else if |keys| == 1 then Some(KeyRange(keys[0], keys[0]))
    else if !Contiguous(keys) then None
    else Some(KeyRange(if keys[0] < 0 then keys[0] else 0,
                       if keys[|keys| - 1] > 0 then keys[|keys| - 1] else 0))
  }

  /** `getRange(array)` as written; a null result is `None`. */
  method GetRange(backing: SparseArray<bool>) returns (r: Option<KeyRange>)
    requires backing.Valid()
    ensures r == RangeAsWritten(backing.keys)
  {
    if backing.Size() == 0 { return None; }
    if backing.Size() == 1 { return Some(KeyRange(backing.KeyAt(0), backing.KeyAt(0))); }
    var largest := 0;
    var smallest := 0;
    var i := 0;
    while i < backing.Size()
      invariant 0 <= i <= backing.Size()
      invariant Contiguous(backing.keys[..i])
      invariant i == 0 ==> largest == 0 && smallest == 0
      invariant i > 0 ==> largest == (if backing.keys[i - 1] > 0 then backing.keys[i - 1] else 0)
      invariant i > 0 ==> smallest == (if backing.keys[0] < 0 then backing.keys[0] else 0)
    {
      var val := backing.KeyAt(i);
      if i > 0 && val - 1 != backing.KeyAt(i - 1) {
        return None;
      }
      assert backing.keys[..i + 1] == backing.keys[..i] + [val];
      if i > 0 {
        AscendingPairs(backing.keys, 0, i);
      }
      if val > largest { largest := val; }
      if val < smallest { smallest := val; }
      i := i + 1;
    }
    assert backing.keys[..i] == backing.keys;
    return Some(KeyRange(smallest, largest));
  }

  /** The range `getRange` is documented to return: first and last key of a contiguous run. */
  function ContiguousRange(keys: seq<int>): Option<KeyRange> {
    if |keys| == 0 || !Contiguous(keys) then None
    else Some(KeyRange(keys[0], keys[|keys| - 1]))
  }

  lemma {:induction false} ContiguousOffsets(keys: seq<int>, j: int)
    requires Contiguous(keys) && 0 <= j < |keys|
    ensures keys[j] == keys[0] + j
  {
    if j > 0 {
      ContiguousOffsets(keys, j - 1);
    }
  }

  /**
   * The corrected range is present exactly for a non-empty run of contiguous
   * keys, and then the keys are exactly the integers from `first` to `last`.
   */
  lemma ContiguousRangeCorrect(keys: seq<int>)
    ensures ContiguousRange(keys).Some? <==> |keys| > 0 && Contiguous(keys)
    ensures ContiguousRange(keys).Some? ==>
      forall k :: k in keys <==> ContiguousRange(keys).value.first <= k <= ContiguousRange(keys).value.last
  {
    if |keys| > 0 && Contiguous(keys) {
      ContiguousOffsets(keys, |keys| - 1);
      forall k ensures k in keys <==> keys[0] <= k <= keys[|keys| - 1] {
        if k in keys {
          var j :| 0 <= j < |keys| && keys[j] == k;
          ContiguousOffsets(keys, j);
        }
        if keys[0] <= k <= keys[|keys| - 1] {
          ContiguousOffsets(keys, k - keys[0]);
        }
      }
    }
  }

  /** As written and corrected agree whenever the keys straddle 0 or there are fewer than two. */
  lemma RangeAsWrittenAgrees(keys: seq<int>)
    requires |keys| < 2 || keys[0] <= 0 <= keys[|keys| - 1]
    ensures RangeAsWritten(keys) == ContiguousRange(keys)
  {
  }

  /** Keys {3, 4}: `getRange` reports (0, 4) though 0 is not a key; the intended range is (3, 4). */
  lemma RangeAsWrittenMisreports()
    ensures RangeAsWritten([3, 4]) == Some(KeyRange(0, 4))
    ensures ContiguousRange([3, 4]) == Some(KeyRange(3, 4))
    ensures 0 !in [3, 4]
  {
    assert Contiguous([3, 4]);
  }

  // -------------------------------------------------------------- iterators

  /**
   * The iterator of `iterable(array)` (the boolean, int and object overloads
   * have the same body).  The iterator deletes from the array it was created
   * over, so it owns that array here as its field `backing`.
   */
  class EntryIterator<V> {
    var backing: SparseArray<V>
    var i: int

    predicate Valid()
      reads this
    {
      backing.Valid() && -1 <= i
    }

    /** The keys `next` has still to yield. */
    function Remaining(): seq<int>
      reads this
    {
      if -1 <= i < |backing.keys| then backing.keys[i + 1..] else []
    }

    constructor(a: SparseArray<V>)
      requires a.Valid()
      ensures Valid() && backing == a && i == -1
      ensures Remaining() == a.keys
    {
      backing := a;
      i := -1;
    }

    function HasNext(): (b: bool)
      reads this
      requires Valid()
      ensures b <==> Remaining() != []
    {
      i + 1 < backing.Size()
    }

    /**
     * `next()`: step the cursor and yield the entry under it; `None` where the
     * Java code reads past the end of the array and throws.
     */
    method Next() returns (r: Option<(int, V)>)
      requires Valid()
      modifies this
      ensures Valid() && backing == old(backing) && i == old(i) + 1
      ensures r.Some? <==> old(HasNext())
      ensures r.Some? ==> r.value == (old(backing.keys[i + 1]), old(backing.values[i + 1]))
      ensures r.Some? ==> Remaining() == old(Remaining())[1..]
    {
      i := i + 1;
      if i < backing.Size() {
        r := Some((backing.KeyAt(i), backing.ValueAt(i)));
      } else {
        r := None;
      }
    }

    /**
     * `remove()` as written: delete the key under the cursor and leave the cursor
     * where it is, so the entry after the deleted one slides under the cursor and
     * `next` never yields it.  `ok` is false where `keyAt(i)` throws.
     */
    method Remove() returns (ok: bool)
      requires Valid()
      modifies this
      ensures Valid() && i == old(i)
      ensures ok <==> old(0 <= i < |backing.keys|)
      ensures ok ==> backing == old(backing.Delete(backing.keys[i]))
      ensures !ok ==> backing == old(backing)
      ensures ok && old(Remaining()) != [] ==> Remaining() == old(Remaining())[1..]
    {
      if 0 <= i < backing.Size() {
        DeleteAt(backing, i);
        backing := backing.Delete(backing.KeyAt(i));
        ok := true;
      } else {
        ok := false;
      }
    }

    /**
     * `remove()` as intended: delete the key under the cursor and step the
     * cursor back, so the entries still to come are untouched.
     */
    method RemoveCorrected() returns (ok: bool)
      requires Valid()
      modifies this
      ensures Valid()
      ensures ok <==> old(0 <= i < |backing.keys|)
      ensures ok ==> backing == old(backing.Delete(backing.keys[i])) && i == old(i) - 1
      ensures !ok ==> backing == old(backing) && i == old(i)
      ensures Remaining() == old(Remaining())
    {
      if 0 <= i < backing.Size() {
        DeleteAt(backing, i);
        backing := backing.Delete(backing.KeyAt(i));
        i := i - 1;
        ok := true;
      } else {
        ok := false;
      }
    }
  }

  /** Iterating to the end yields every entry once, in index order. */
  method Entries<V>(a: SparseArray<V>) returns (es: seq<(int, V)>)
    requires a.Valid()
    ensures |es| == a.Size()
    ensures forall j :: 0 <= j < |es| ==> es[j] == (a.keys[j], a.values[j])
  {
    var it := new EntryIterator(a);
    es := [];
    while it.HasNext()
      invariant it.Valid() && it.backing == a && it.i == |es| - 1 && |es| <= a.Size()
      invariant forall j :: 0 <= j < |es| ==> es[j] == (a.keys[j], a.values[j])
      decreases a.Size() - it.i
    {
      var e := it.Next();
      assert e == Some((a.keys[|es|], a.values[|es|]));
      es := es + [e.value];
    }
  }

  /** Removing every entry the corrected iterator yields empties the array. */
  method RemoveEach<V>(a: SparseArray<V>) returns (rest: SparseArray<V>)
    requires a.Valid()
    ensures rest.Valid() && rest.Size() == 0
  {
    var it := new EntryIterator(a);
    while it.HasNext()
      invariant it.Valid() && it.i == -1
      decreases it.backing.Size()
    {
      var _ := it.Next();
      var _ := it.RemoveCorrected();
    }
    rest := it.backing;
  }

  /**
   * Removing every entry the as-written iterator yields, over keys 1, 2, 3:
   * it yields 1 and 3, and key 2 is left behind.
   */
  method RemoveEachAsWritten() returns (yielded: seq<int>, rest: SparseArray<bool>)
    ensures yielded == [1, 3] && rest.keys == [2]
  {
    var it := new EntryIterator(SparseArray([1, 2, 3], [true, true, true]));
    yielded := [];
    var e := it.Next();
    yielded := yielded + [e.value.0];
    var _ := it.Remove();
    e := it.Next();
    yielded := yielded + [e.value.0];
    var _ := it.Remove();
    assert !it.HasNext();
    rest := it.backing;
  }
}
