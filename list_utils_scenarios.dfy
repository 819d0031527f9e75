/**
 * The reordering scenarios of the unit tests, each as a lemma about the
 * model: old and new list, and the reorderings getReorderings returns.
 */
module ListUtilsScenarios {
  import opened Wrappers
  import opened SparseArrays
  import opened ListUtils
  import opened ListUtilsProperties

  /** The table of a list whose new index p holds old item sigma[p]. */
  function PermutationMoves(sigma: seq<int>): seq<Move> {
    seq(|sigma|, p requires 0 <= p < |sigma| => Move(sigma[p], p))
  }

  /**
   * When the new list is a rearrangement of a list without repeats, the
   * table has no insertions or deletions.
   */
  lemma PermutationTable<T>(o: seq<T>, n: seq<T>, sigma: seq<int>)
    requires Distinct(o) && |sigma| == |n|
    requires forall p :: 0 <= p < |n| ==> 0 <= sigma[p] < |o| && o[sigma[p]] == n[p]
    requires forall d :: 0 <= d < |o| ==> o[d] in n
    ensures MoveTable(Some(o), n) == PermutationMoves(sigma)
  {
    MoveTableNewEntries(o, n);
    DeletedMovesNone(o, n, |o|);
    forall p | 0 <= p < |n| ensures IndexOf(o, n[p]) == sigma[p] {
    }
  }

  /** Such a table's scores are the plain displacements new - old. */
  lemma PermutationScores(sigma: seq<int>)
    requires forall p :: 0 <= p < |sigma| ==> sigma[p] >= 0
    ensures |NetMoveScores(PermutationMoves(sigma))| == |sigma|
    ensures forall p :: 0 <= p < |sigma| ==> NetMoveScores(PermutationMoves(sigma))[p] == p - sigma[p]
  {
    var moves := PermutationMoves(sigma);
    assert WellFormed(moves, |sigma|);
    NetMoveScoresClosedForm(moves, |sigma|);
    forall p | 0 <= p < |sigma| ensures NetMoveScores(moves)[p] == p - sigma[p] {
      InsertionsBeforeNone(moves, p);
      DeletionsBelowNone(moves, |moves|, moves[p].oldIndex);
    }
  }

  /** The list 0, 1, ..., k - 1. */
  ghost predicate IsRange(o: seq<int>, k: nat) {
    |o| == k && forall i :: 0 <= i < k ==> o[i] == i
  }

  /** The characterisation of indexOfHighestNetMove pins down its result. */
  lemma HighestIs(s: seq<int>, k: nat)
    requires k < |s| && s[k] != 0
    requires forall i :: 0 <= i < |s| ==> Abs(s[i]) <= Abs(s[k])
    requires forall i :: 0 <= i < k ==> Abs(s[i]) < Abs(s[k])
    ensures HighestNetMove(s) == k
  {
    var r := HighestNetMove(s);
    assert r != -1;
  }

  /** extractReordering on a chosen entry with a negative score whose cascade stays in the table. */
  lemma StepDown(moves: seq<Move>, s: seq<int>, r: SparseArray<int>, index: nat)
    requires |s| <= |moves| && r.Valid()
    requires HighestNetMove(s) == index && s[index] < 0 && index - s[index] < |moves|
    ensures ExtractStep(moves, s, r) ==
      Moved(Cascade(moves, s[index := 0], index + 1, index - s[index] + 1, -1), r.Put(moves[index].newIndex, moves[index].oldIndex))
  {
  }

  /** extractReordering on a chosen entry with a positive score whose cascade stays in the table. */
  lemma StepUp(moves: seq<Move>, s: seq<int>, r: SparseArray<int>, index: nat)
    requires |s| <= |moves| && r.Valid()
    requires HighestNetMove(s) == index && s[index] > 0 && index - s[index] >= 0
    ensures ExtractStep(moves, s, r) ==
      Moved(Cascade(moves, s[index := 0], index - s[index], index, 1), r.Put(moves[index].newIndex, moves[index].oldIndex))
  {
  }

  /** A table of six moves, none an insertion or a deletion. */
  ghost predicate SixMoves(moves: seq<Move>) {
    |moves| == 6 && forall i :: 0 <= i < 6 ==> moves[i].oldIndex >= 0 && moves[i].newIndex == i
  }

  /** The six-element list [a, b, c, d, e, f]. */
  ghost predicate Is6(l: seq<int>, a: int, b: int, c: int, d: int, e: int, f: int) {
    |l| == 6 && l[0] == a && l[1] == b && l[2] == c && l[3] == d && l[4] == e && l[5] == f
  }

  lemma SixCases(i: int)
    requires 0 <= i < 6
    ensures i == 0 || i == 1 || i == 2 || i == 3 || i == 4 || i == 5
  {
  }

  /** A six-element list of six different values has no repeats. */
  lemma SixDistinct(l: seq<int>)
    requires |l| == 6
    requires l[0] != l[1] && l[0] != l[2] && l[0] != l[3] && l[0] != l[4] && l[0] != l[5]
    requires l[1] != l[2] && l[1] != l[3] && l[1] != l[4] && l[1] != l[5]
    requires l[2] != l[3] && l[2] != l[4] && l[2] != l[5]
    requires l[3] != l[4] && l[3] != l[5] && l[4] != l[5]
    ensures Distinct(l)
  {
    forall i, j | 0 <= i < j < 6 ensures l[i] != l[j] {
      SixCases(i);
      SixCases(j);
    }
  }

  /** The scenarios start from a table like this, scored by plain displacement. */
  lemma Start(o: seq<int>, n: seq<int>, sigma: seq<int>)
    requires Distinct(o) && |sigma| == |n| == 6
    requires forall p :: 0 <= p < |n| ==> 0 <= sigma[p] < |o| && o[sigma[p]] == n[p]
    requires forall d :: 0 <= d < |o| ==> o[d] in n
    ensures MoveTable(Some(o), n) == PermutationMoves(sigma)
    ensures SixMoves(PermutationMoves(sigma))
    ensures |NetMoveScores(PermutationMoves(sigma))| == 6
    ensures forall p :: 0 <= p < 6 ==> NetMoveScores(PermutationMoves(sigma))[p] == p - sigma[p]
  {
    PermutationTable(o, n, sigma);
    PermutationScores(sigma);
  }

  lemma RunSwapLastTwo(moves: seq<Move>, s: seq<int>, fuel: nat)
    requires SixMoves(moves) && moves[4] == Move(5, 4) && fuel >= 2
    requires Is6(s, 0, 0, 0, 0, -1, 1)
    ensures Run(moves, s, Empty(), fuel) == Reordered(SparseArray([4], [5]))
  {
    HighestIs(s, 4);
    StepDown(moves, s, Empty(), 4);
    var s1 := Cascade(moves, s[4 := 0], 5, 6, -1);
    assert forall i :: 0 <= i < |s1| ==> s1[i] == 0;
    QuietRun(moves, s1, Empty<int>().Put(4, 5), 1);
    RunFuelMonotone(moves, s, Empty(), 2, fuel - 2);
  }

  lemma RunLastToFront(moves: seq<Move>, s: seq<int>, fuel: nat)
    requires SixMoves(moves) && moves[0] == Move(5, 0) && fuel >= 2
    requires Is6(s, -5, 1, 1, 1, 1, 1)
    ensures Run(moves, s, Empty(), fuel) == Reordered(SparseArray([0], [5]))
  {
    HighestIs(s, 0);
    StepDown(moves, s, Empty(), 0);
    var s1 := Cascade(moves, s[0 := 0], 1, 6, -1);
    assert forall i :: 0 <= i < |s1| ==> s1[i] == 0;
    QuietRun(moves, s1, Empty<int>().Put(0, 5), 1);
    RunFuelMonotone(moves, s, Empty(), 2, fuel - 2);
  }

  lemma RunTwoToFront(moves: seq<Move>, s: seq<int>, fuel: nat)
    requires SixMoves(moves) && moves[0] == Move(5, 0) && moves[2] == Move(4, 2) && fuel >= 3
    requires Is6(s, -5, 1, -2, 2, 2, 2)
    ensures Run(moves, s, Empty(), fuel) == Reordered(SparseArray([0, 2], [5, 4]))
  {
    HighestIs(s, 0);
    StepDown(moves, s, Empty(), 0);
    var s1 := Cascade(moves, s[0 := 0], 1, 6, -1);
    assert Is6(s1, 0, 0, -3, 1, 1, 1);
    RunTwoToFrontSecond(moves, s1, 2);
    RunFuelMonotone(moves, s, Empty(), 3, fuel - 3);
  }

  lemma RunTwoToFrontSecond(moves: seq<Move>, s: seq<int>, fuel: nat)
    requires SixMoves(moves) && moves[2] == Move(4, 2) && fuel == 2
    requires Is6(s, 0, 0, -3, 1, 1, 1)
    ensures Run(moves, s, SparseArray([0], [5]), fuel) == Reordered(SparseArray([0, 2], [5, 4]))
  {
    var r1 := SparseArray([0], [5]);
    HighestIs(s, 2);
    StepDown(moves, s, r1, 2);
    var s2 := Cascade(moves, s[2 := 0], 3, 6, -1);
    assert forall i :: 0 <= i < |s2| ==> s2[i] == 0;
    assert r1.Put(2, 4) == SparseArray([0, 2], [5, 4]);
    QuietRun(moves, s2, r1.Put(2, 4), 1);
  }

  lemma RunSwapEnds(moves: seq<Move>, s: seq<int>, fuel: nat)
    requires SixMoves(moves) && moves[0] == Move(5, 0) && moves[5] == Move(0, 5) && fuel >= 3
    requires Is6(s, -5, 0, 0, 0, 0, 5)
    ensures Run(moves, s, Empty(), fuel) == Reordered(SparseArray([0, 5], [5, 0]))
  {
    HighestIs(s, 0);
    StepDown(moves, s, Empty(), 0);
    var s1 := Cascade(moves, s[0 := 0], 1, 6, -1);
    assert Is6(s1, 0, -1, -1, -1, -1, 4);
    RunSwapEndsSecond(moves, s1, 2);
    RunFuelMonotone(moves, s, Empty(), 3, fuel - 3);
  }

  lemma RunSwapEndsSecond(moves: seq<Move>, s: seq<int>, fuel: nat)
    requires SixMoves(moves) && moves[5] == Move(0, 5) && fuel == 2
    requires Is6(s, 0, -1, -1, -1, -1, 4)
    ensures Run(moves, s, SparseArray([0], [5]), fuel) == Reordered(SparseArray([0, 5], [5, 0]))
  {
    var r1 := SparseArray([0], [5]);
    HighestIs(s, 5);
    StepUp(moves, s, r1, 5);
    var s2 := Cascade(moves, s[5 := 0], 1, 5, 1);
    assert forall i :: 0 <= i < |s2| ==> s2[i] == 0;
    assert r1.Put(5, 0) == SparseArray([0, 5], [5, 0]);
    QuietRun(moves, s2, r1.Put(5, 0), 1);
  }

  lemma RunFrontToLast(moves: seq<Move>, s: seq<int>, fuel: nat)
    requires SixMoves(moves) && moves[5] == Move(0, 5) && fuel >= 2
    requires Is6(s, -1, -1, -1, -1, -1, 5)
    ensures Run(moves, s, Empty(), fuel) == Reordered(SparseArray([5], [0]))
  {
    HighestIs(s, 5);
    StepUp(moves, s, Empty(), 5);
    var s1 := Cascade(moves, s[5 := 0], 0, 5, 1);
    assert forall i :: 0 <= i < |s1| ==> s1[i] == 0;
    QuietRun(moves, s1, Empty<int>().Put(5, 0), 1);
    RunFuelMonotone(moves, s, Empty(), 2, fuel - 2);
  }

  lemma RunTwoToBack(moves: seq<Move>, s: seq<int>, fuel: nat)
    requires SixMoves(moves) && moves[5] == Move(0, 5) && moves[4] == Move(2, 4) && fuel >= 3
    requires Is6(s, -1, -2, -2, -2, 2, 5)
    ensures Run(moves, s, Empty(), fuel) == Reordered(SparseArray([4, 5], [2, 0]))
  {
    HighestIs(s, 5);
    StepUp(moves, s, Empty(), 5);
    var s1 := Cascade(moves, s[5 := 0], 0, 5, 1);
    assert Is6(s1, 0, -1, -1, -1, 3, 0);
    RunTwoToBackSecond(moves, s1, 2);
    RunFuelMonotone(moves, s, Empty(), 3, fuel - 3);
  }

  lemma RunTwoToBackSecond(moves: seq<Move>, s: seq<int>, fuel: nat)
    requires SixMoves(moves) && moves[4] == Move(2, 4) && fuel == 2
    requires Is6(s, 0, -1, -1, -1, 3, 0)
    ensures Run(moves, s, SparseArray([5], [0]), fuel) == Reordered(SparseArray([4, 5], [2, 0]))
  {
    var r1 := SparseArray([5], [0]);
    HighestIs(s, 4);
    StepUp(moves, s, r1, 4);
    var s2 := Cascade(moves, s[4 := 0], 1, 4, 1);
    assert forall i :: 0 <= i < |s2| ==> s2[i] == 0;
    assert r1.Put(4, 2) == SparseArray([4, 5], [2, 0]);
    QuietRun(moves, s2, r1.Put(4, 2), 1);
  }

  // The scenarios of ListUtilsTest, where list05 is [0, 1, 2, 3, 4, 5].

  lemma TestSwapLastTwo(o: seq<int>, n: seq<int>, fuel: nat)
    requires Is6(o, 0, 1, 2, 3, 4, 5) && Is6(n, 0, 1, 2, 3, 5, 4) && fuel >= 2
    ensures Reorder(Some(o), n, fuel) == Reordered(SparseArray([4], [5]))
  {
    Start(o, n, n);
    RunSwapLastTwo(PermutationMoves(n), NetMoveScores(PermutationMoves(n)), fuel);
  }

  lemma TestLastToFront(o: seq<int>, n: seq<int>, fuel: nat)
    requires Is6(o, 0, 1, 2, 3, 4, 5) && Is6(n, 5, 0, 1, 2, 3, 4) && fuel >= 2
    ensures Reorder(Some(o), n, fuel) == Reordered(SparseArray([0], [5]))
  {
    Start(o, n, n);
    RunLastToFront(PermutationMoves(n), NetMoveScores(PermutationMoves(n)), fuel);
  }

  lemma TestTwoToFront(o: seq<int>, n: seq<int>, fuel: nat)
    requires Is6(o, 0, 1, 2, 3, 4, 5) && Is6(n, 5, 0, 4, 1, 2, 3) && fuel >= 3
    ensures Reorder(Some(o), n, fuel) == Reordered(SparseArray([0, 2], [5, 4]))
  {
    Start(o, n, n);
    RunTwoToFront(PermutationMoves(n), NetMoveScores(PermutationMoves(n)), fuel);
  }

  lemma TestSwapEnds(o: seq<int>, n: seq<int>, fuel: nat)
    requires Is6(o, 0, 1, 2, 3, 4, 5) && Is6(n, 5, 1, 2, 3, 4, 0) && fuel >= 3
    ensures Reorder(Some(o), n, fuel) == Reordered(SparseArray([0, 5], [5, 0]))
  {
    Start(o, n, n);
    RunSwapEnds(PermutationMoves(n), NetMoveScores(PermutationMoves(n)), fuel);
  }

  lemma TestSwapLastTwoBack(o: seq<int>, n: seq<int>, fuel: nat)
    requires Is6(o, 0, 1, 2, 3, 5, 4) && Is6(n, 0, 1, 2, 3, 4, 5) && fuel >= 2
    ensures Reorder(Some(o), n, fuel) == Reordered(SparseArray([4], [5]))
  {
    TestSwapLastTwoBackFrom(o, n, [0, 1, 2, 3, 5, 4], fuel);
  }

  lemma TestSwapLastTwoBackFrom(o: seq<int>, n: seq<int>, sigma: seq<int>, fuel: nat)
    requires Is6(o, 0, 1, 2, 3, 5, 4) && Is6(n, 0, 1, 2, 3, 4, 5) && fuel >= 2
    requires Is6(sigma, 0, 1, 2, 3, 5, 4)
    ensures Reorder(Some(o), n, fuel) == Reordered(SparseArray([4], [5]))
  {
    SixDistinct(o);
    forall p | 0 <= p < 6 ensures 0 <= sigma[p] < 6 && o[sigma[p]] == n[p] {
      SixCases(p);
    }
    Start(o, n, sigma);
    RunSwapLastTwo(PermutationMoves(sigma), NetMoveScores(PermutationMoves(sigma)), fuel);
  }

  lemma TestFrontToLast(o: seq<int>, n: seq<int>, fuel: nat)
    requires Is6(o, 5, 0, 1, 2, 3, 4) && Is6(n, 0, 1, 2, 3, 4, 5) && fuel >= 2
    ensures Reorder(Some(o), n, fuel) == Reordered(SparseArray([5], [0]))
  {
    TestFrontToLastFrom(o, n, [1, 2, 3, 4, 5, 0], fuel);
  }

  lemma TestFrontToLastFrom(o: seq<int>, n: seq<int>, sigma: seq<int>, fuel: nat)
    requires Is6(o, 5, 0, 1, 2, 3, 4) && Is6(n, 0, 1, 2, 3, 4, 5) && fuel >= 2
    requires Is6(sigma, 1, 2, 3, 4, 5, 0)
    ensures Reorder(Some(o), n, fuel) == Reordered(SparseArray([5], [0]))
  {
    SixDistinct(o);
    forall p | 0 <= p < 6 ensures 0 <= sigma[p] < 6 && o[sigma[p]] == n[p] {
      SixCases(p);
    }
    Start(o, n, sigma);
    RunFrontToLast(PermutationMoves(sigma), NetMoveScores(PermutationMoves(sigma)), fuel);
  }

  lemma TestTwoToBack(o: seq<int>, n: seq<int>, fuel: nat)
    requires Is6(o, 5, 0, 4, 1, 2, 3) && Is6(n, 0, 1, 2, 3, 4, 5) && fuel >= 3
    ensures Reorder(Some(o), n, fuel) == Reordered(SparseArray([4, 5], [2, 0]))
  {
    TestTwoToBackFrom(o, n, [1, 3, 4, 5, 2, 0], fuel);
  }

  lemma TestTwoToBackFrom(o: seq<int>, n: seq<int>, sigma: seq<int>, fuel: nat)
    requires Is6(o, 5, 0, 4, 1, 2, 3) && Is6(n, 0, 1, 2, 3, 4, 5) && fuel >= 3
    requires Is6(sigma, 1, 3, 4, 5, 2, 0)
    ensures Reorder(Some(o), n, fuel) == Reordered(SparseArray([4, 5], [2, 0]))
  {
    SixDistinct(o);
    forall p | 0 <= p < 6 ensures 0 <= sigma[p] < 6 && o[sigma[p]] == n[p] {
      SixCases(p);
    }
    Start(o, n, sigma);
    RunTwoToBack(PermutationMoves(sigma), NetMoveScores(PermutationMoves(sigma)), fuel);
  }
}
