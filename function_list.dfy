/**
 * FunctionList: a list whose element i is a function applied to element i
 * of an underlying list. Reads go through the function, removals go to the
 * underlying list, and every operation that would need the function's
 * inverse fails with UnsupportedOperationException.
 */
module FunctionLists {

  /** `f` applied to every element of `s`, in order. */
  function Mapped<I, O>(f: I -> O, s: seq<I>): (r: seq<O>)
    ensures |r| == |s|
    ensures forall i :: 0 <= i < |s| ==> r[i] == f(s[i])
  {
    if s == [] then [] else [f(s[0])] + Mapped(f, s[1..])
  }

  /**
   * The largest index i with lo <= i < n and s[i] == x, or -1 if there is
   * none: what a backwards scan from n - 1 that stops before lo finds.
   */
  function LastMatch<O(==)>(s: seq<O>, x: O, lo: nat, n: nat): (r: int)
    requires n <= |s|
    ensures r == -1 || (lo <= r < n && s[r] == x)
    ensures r == -1 <==> forall i :: lo <= i < n ==> s[i] != x
    ensures r >= 0 ==> forall i :: r < i < n ==> s[i] != x
  {
    if n <= lo then -1
    else if s[n - 1] == x then n - 1
    else LastMatch(s, x, lo, n - 1)
  }

  /** A scan that stops before index 1 agrees with a full scan except when the only match is at index 0. */
  lemma LastMatchFromOne<O>(s: seq<O>, x: O)
    ensures LastMatch(s, x, 0, |s|) != 0 ==> LastMatch(s, x, 1, |s|) == LastMatch(s, x, 0, |s|)
    ensures LastMatch(s, x, 0, |s|) == 0 ==> LastMatch(s, x, 1, |s|) == -1
  {
    var full, part := LastMatch(s, x, 0, |s|), LastMatch(s, x, 1, |s|);
    if full > 0 {
      assert part >= 0;
    }
  }

  /** lastIndexOf on a one-element list holding x misses x; the full scan finds it at 0. */
  lemma LastIndexOfMissesFirst<O>(x: O)
    ensures LastMatch([x], x, 1, 1) == -1
    ensures LastMatch([x], x, 0, 1) == 0
  {
  }

  /** The mutators that would need the function's inverse. */
  datatype Mutation<O> =
    | Add(item: O)
    | AddAt(location: int, item: O)
    | AddAll(collection: seq<O>)
    | AddAllAt(location: int, collection: seq<O>)
    | Set(location: int, item: O)
    | IteratorAdd(item: O)
    | IteratorSet(item: O)

  /** The outcome of an operation that can throw UnsupportedOperationException. */
  datatype Attempt<T> = Done(value: T) | Unsupported

  class FunctionList<I, O(==)> {
    /** The function each element goes through. */
    const evaluate: I -> O
    /** The underlying list. */
    var list: seq<I>

    /** The elements as the list presents them. */
    function Elements(): seq<O>
      reads this
    {
      Mapped(evaluate, list)
    }

    constructor (list: seq<I>, evaluate: I -> O)
      ensures this.list == list && this.evaluate == evaluate
    {
      this.list := list;
      this.evaluate := evaluate;
    }

    /** get: the function applied to the underlying element. */
    function Get(location: int): (o: O)
      reads this
      requires 0 <= location < |list|
      ensures o == Elements()[location]
    {
      evaluate(list[location])
    }

    /** size: as many elements as the underlying list. */
    function Size(): (n: nat)
      reads this
      ensures n == |Elements()|
    {
      |list|
    }

    /** isEmpty: the underlying list is empty. */
    function IsEmpty(): (b: bool)
      reads this
      ensures b <==> Elements() == []
    {
      list == []
    }

    /** indexOf: the first index whose element equals `item`, or -1 if there is none. */
    method IndexOf(item: O) returns (r: int)
      ensures r == -1 <==> item !in Elements()
      ensures r >= 0 ==> r < |Elements()| && Elements()[r] == item
      ensures r >= 0 ==> forall j :: 0 <= j < r ==> Elements()[j] != item
      ensures r >= -1
    {
      for i := 0 to Size()
        invariant forall j :: 0 <= j < i ==> Elements()[j] != item
      {
        if item == Get(i) {
          return i;
        }
      }
      return -1;
    }

    /** contains: indexOf finds the item. */
    method Contains(item: O) returns (b: bool)
      ensures b <==> item in Elements()
    {
      var index := IndexOf(item);
      b := index >= 0;
    }

    /** containsAll: every element of the collection is contained. */
    method ContainsAll(collection: seq<O>) returns (b: bool)
      ensures b <==> forall x :: x in collection ==> x in Elements()
    {
      for i := 0 to |collection|
        invariant forall j :: 0 <= j < i ==> collection[j] in Elements()
      {
        var c := Contains(collection[i]);
        if !c {
          return false;
        }
      }
      return true;
    }

    /**
     * lastIndexOf as written: the scan runs from size - 1 down to 1, so a
     * match at index 0 is never reported.
     */
    method LastIndexOf(item: O) returns (r: int)
      ensures r == LastMatch(Elements(), item, 1, |Elements()|)
      ensures r != 0
    {
      var i := Size() - 1;
      while i > 0
        invariant -1 <= i < |list|
        invariant LastMatch(Elements(), item, 1, |list|) == LastMatch(Elements(), item, 1, i + 1)
      {
        if item == Get(i) {
          return i;
        }
        i := i - 1;
      }
      return -1;
    }

    /** lastIndexOf as evidently intended: the scan includes index 0. */
    method LastIndexOfCorrected(item: O) returns (r: int)
      ensures r == LastMatch(Elements(), item, 0, |Elements()|)
      ensures r == -1 <==> item !in Elements()
      ensures r >= 0 ==> Elements()[r] == item && forall j :: r < j < |Elements()| ==> Elements()[j] != item
    {
      var i := Size() - 1;
      while i >= 0
        invariant -1 <= i < |list|
        invariant LastMatch(Elements(), item, 0, |list|) == LastMatch(Elements(), item, 0, i + 1)
      {
        if item == Get(i) {
          return i;
        }
        i := i - 1;
      }
      return -1;
    }

    /** remove(location): the underlying element goes, and its image is returned. */
    method Remove(location: int) returns (o: O)
      requires 0 <= location < |list|
      modifies this
      ensures o == old(Elements())[location]
      ensures list == old(list)[..location] + old(list)[location + 1..]
      ensures Elements() == old(Elements())[..location] + old(Elements())[location + 1..]
    {
      var removed := list[location];
      list := list[..location] + list[location + 1..];
      o := evaluate(removed);
    }

    /** remove(Object): reports false and changes nothing. */
    method RemoveObject(item: O) returns (b: bool)
      ensures !b
    {
      b := false;
    }

    /** removeAll: reports false and changes nothing. */
    method RemoveAll(collection: seq<O>) returns (b: bool)
      ensures !b
    {
      b := false;
    }

    /** retainAll: reports false and changes nothing. */
    method RetainAll(collection: seq<O>) returns (b: bool)
      ensures !b
    {
      b := false;
    }

    /** add, addAll, set and the list iterator's add and set: always unsupported, nothing changes. */
    method Mutate(mutation: Mutation<O>) returns (r: Attempt<bool>)
      ensures r == Unsupported
    {
      r := Unsupported;
    }

    /** subList: a function list over the underlying elements from start up to end. */
    method SubList(start: int, end: int) returns (sub: FunctionList<I, O>)
      requires 0 <= start <= end <= |list|
      ensures fresh(sub) && sub.evaluate == evaluate && sub.list == list[start..end]
      ensures sub.Elements() == Elements()[start..end]
    {
      sub := new FunctionList(list[start..end], evaluate);
    }

    /** clear: the underlying list is emptied. */
    method Clear()
      modifies this
      ensures list == [] && Elements() == []
    {
      list := [];
    }

    /** toArray: the elements, filled in index order. */
    method ToArray() returns (contents: seq<O>)
      ensures contents == Elements()
    {
      contents := [];
      for i := 0 to Size()
        invariant contents == Elements()[..i]
      {
        contents := contents + [Get(i)];
      }
    }
  }
}
