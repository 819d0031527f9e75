/**
 * CompareUtils: comparators composed lexicographically, and comparison of
 * values that may be null. A java.util.Comparator is a total function to
 * int whose sign is the answer; a nullable value is an Option.
 */
module CompareUtils {
  import opened Wrappers

  /** The sign of a comparison result. */
  function Sign(x: int): int {
    if x < 0 then -1 else if x > 0 then 1 else 0
  }

  /** `c` orders `l` and `r` the opposite way round to `r` and `l`. */
  predicate Antisymmetric<T>(c: (T, T) -> int, l: T, r: T) {
    Sign(c(l, r)) == -Sign(c(r, l))
  }

  // ------------------------------------------------------- multiDimensionalCompare

  /** The index of the first comparator that tells `lhs` and `rhs` apart, or |cs| if none does. */
  function FirstDecisive<T>(lhs: T, rhs: T, cs: seq<(T, T) -> int>): (i: nat)
    ensures i <= |cs|
    ensures forall j :: 0 <= j < i ==> cs[j](lhs, rhs) == 0
    ensures i < |cs| ==> cs[i](lhs, rhs) != 0
  {
    if cs == [] then 0
    else if cs[0](lhs, rhs) != 0 then 0
    else 1 + FirstDecisive(lhs, rhs, cs[1..])
  }

  /** The comparison the comparators make together: the first nonzero result, else 0. */
  function Lexicographic<T>(lhs: T, rhs: T, cs: seq<(T, T) -> int>): int {
    var i := FirstDecisive(lhs, rhs, cs);
    if i < |cs| then cs[i](lhs, rhs) else 0
  }

  /**
   * multiDimensionalCompare: runs through the comparators in order and
   * returns the first nonzero result, or 0 when all of them (or none) are 0.
   */
  method MultiDimensionalCompare<T>(lhs: T, rhs: T, comparators: seq<(T, T) -> int>) returns (r: int)
    ensures r == Lexicographic(lhs, rhs, comparators)
    ensures r == 0 <==> forall j :: 0 <= j < |comparators| ==> comparators[j](lhs, rhs) == 0
  {
    for i := 0 to |comparators|
      invariant forall j :: 0 <= j < i ==> comparators[j](lhs, rhs) == 0
    {
      var result := comparators[i](lhs, rhs);
      if result != 0 {
        return result;
      }
    }
    return 0;
  }

  /** mergeComparators: the comparator whose compare is multiDimensionalCompare over `comparators`. */
  function MergeComparators<T>(comparators: seq<(T, T) -> int>): (T, T) -> int {
    (lhs: T, rhs: T) => Lexicographic(lhs, rhs, comparators)
  }

  /** A single comparator merged on its own is that comparator. */
  lemma MergeSingle<T>(c: (T, T) -> int, lhs: T, rhs: T)
    ensures MergeComparators([c])(lhs, rhs) == c(lhs, rhs)
  {
    assert FirstDecisive(lhs, rhs, [c]) == if c(lhs, rhs) != 0 then 0 else 1;
  }

  /** Merging a concatenation consults the first list and falls back to the second only on a tie. */
  lemma {:induction false} MergeConcat<T>(a: seq<(T, T) -> int>, b: seq<(T, T) -> int>, lhs: T, rhs: T)
    ensures Lexicographic(lhs, rhs, a + b) ==
      if Lexicographic(lhs, rhs, a) != 0 then Lexicographic(lhs, rhs, a) else Lexicographic(lhs, rhs, b)
  {
    var i := FirstDecisive(lhs, rhs, a);
    var ab := a + b;
    if i < |a| {
      assert ab[i] == a[i];
      assert forall j :: 0 <= j < i ==> ab[j] == a[j];
      assert FirstDecisive(lhs, rhs, ab) == i;
    } else {
      var k := FirstDecisive(lhs, rhs, b);
      assert forall j :: 0 <= j < |a| ==> ab[j] == a[j];
      assert forall j :: |a| <= j < |a| + k ==> ab[j] == b[j - |a|];
      assert k < |b| ==> ab[|a| + k] == b[k];
      assert FirstDecisive(lhs, rhs, ab) == |a| + k;
    }
  }

  /** If every comparator is antisymmetric on a pair, so is their merge. */
  lemma MergeAntisymmetric<T>(cs: seq<(T, T) -> int>, lhs: T, rhs: T)
    requires forall j :: 0 <= j < |cs| ==> Antisymmetric(cs[j], lhs, rhs)
    ensures Antisymmetric(MergeComparators(cs), lhs, rhs)
  {
    var i := FirstDecisive(lhs, rhs, cs);
    var i' := FirstDecisive(rhs, lhs, cs);
    assert forall j :: 0 <= j < |cs| ==> (cs[j](lhs, rhs) == 0 <==> cs[j](rhs, lhs) == 0) by {
      forall j | 0 <= j < |cs| ensures cs[j](lhs, rhs) == 0 <==> cs[j](rhs, lhs) == 0 {
        assert Antisymmetric(cs[j], lhs, rhs);
      }
    }
    assert i == i';
    if i < |cs| {
      assert Antisymmetric(cs[i], lhs, rhs);
    }
  }

  // ---------------------------------------------------------------- nullableCompare

  /**
   * nullableCompare: two values compare by the comparator; two nulls are
   * equal; a null comes first exactly when `nullsLessThan` holds.
   */
  function NullableCompare<T>(lhs: Option<T>, rhs: Option<T>, comparator: (T, T) -> int, nullsLessThan: bool): (r: int)
    ensures lhs.Some? && rhs.Some? ==> r == comparator(lhs.value, rhs.value)
    ensures lhs.None? && rhs.None? ==> r == 0
    ensures lhs.None? != rhs.None? ==> r != 0 && (r < 0 <==> lhs.None? == nullsLessThan)
  {
    if lhs.Some? && rhs.Some? then comparator(lhs.value, rhs.value)
    else if lhs.None? && rhs.None? then 0
    else if lhs.None? then (if nullsLessThan then -1 else 1)
    else (if nullsLessThan then 1 else -1)
  }

  /** Swapping the arguments negates the result whenever the comparator is antisymmetric on the values. */
  lemma NullableAntisymmetric<T>(lhs: Option<T>, rhs: Option<T>, comparator: (T, T) -> int, nullsLessThan: bool)
    requires lhs.Some? && rhs.Some? ==> Antisymmetric(comparator, lhs.value, rhs.value)
    ensures Sign(NullableCompare(lhs, rhs, comparator, nullsLessThan)) == -Sign(NullableCompare(rhs, lhs, comparator, nullsLessThan))
  {
  }

  /** With exactly one null the result is -1 or 1 and swapping negates it exactly. */
  lemma NullSwapNegates<T>(x: T, comparator: (T, T) -> int, nullsLessThan: bool)
    ensures NullableCompare(None, Some(x), comparator, nullsLessThan) == -NullableCompare(Some(x), None, comparator, nullsLessThan)
    ensures NullableCompare(None, Some(x), comparator, nullsLessThan) == if nullsLessThan then -1 else 1
  {
  }
}
