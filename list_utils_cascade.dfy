/**
 * The cascade of extractReordering can index outside the move table even
 * when both lists are free of repeats; the process then ends with an
 * IndexOutOfBoundsException. This module exhibits such a pair of lists and
 * defines the corrected cascade, which only adjusts the part of its range
 * that lies inside the table.
 */
module ListUtilsCascade {
  import opened Wrappers
  import opened SparseArrays
  import opened ListUtils
  import opened ListUtilsProperties
  import opened ListUtilsScenarios

  // ---------------------------------------------------------------------
  // The cascade as written leaves the table
  // ---------------------------------------------------------------------

  /** The four-element list [a, b, c, d]. */
  ghost predicate Is4(l: seq<int>, a: int, b: int, c: int, d: int) {
    |l| == 4 && l[0] == a && l[1] == b && l[2] == c && l[3] == d
  }

  lemma RunLeavesTable(moves: seq<Move>, s: seq<int>, fuel: nat)
    requires |moves| == 4 && forall i :: 0 <= i < 4 ==> moves[i].oldIndex >= 0 && moves[i].newIndex == i
    requires Is4(s, -2, 1, -1, 2) && fuel >= 2
    ensures Run(moves, s, Empty(), fuel) == IndexOutOfBounds
  {
    HighestIs(s, 0);
    StepDown(moves, s, Empty(), 0);
    var s1 := Cascade(moves, s[0 := 0], 1, 3, -1);
    assert Is4(s1, 0, 0, -2, 2);
    HighestIs(s1, 2);
    assert 2 - s1[2] >= |moves|;
    assert ExtractStep(moves, s1, Empty<int>().Put(0, 2)) == CascadeOutOfBounds;
    assert Run(moves, s1, Empty<int>().Put(0, 2), fuel - 1) == IndexOutOfBounds;
    RunMoved(moves, s, Empty(), fuel);
  }

  /**
   * old = [0, 1, 2, 3], new = [2, 0, 3, 1]: the first step moves new index
   * 0 and leaves score -2 at new index 2, whose cascade then starts at
   * index 4 of a four-entry table.
   */
  lemma CascadeLeavesTable(o: seq<int>, n: seq<int>, fuel: nat)
    requires Is4(o, 0, 1, 2, 3) && Is4(n, 2, 0, 3, 1) && fuel >= 2
    ensures Distinct(o) && Distinct(n)
    ensures Reorder(Some(o), n, fuel) == IndexOutOfBounds
  {
    forall i, j | 0 <= i < j < 4 ensures n[i] != n[j] {
      assert i in {0, 1, 2, 3};
      assert j in {0, 1, 2, 3};
    }
    forall p | 0 <= p < 4 ensures 0 <= n[p] < 4 && o[n[p]] == n[p] {
      assert p in {0, 1, 2, 3};
    }
    forall d | 0 <= d < 4 ensures o[d] in n {
      assert d in {0, 1, 2, 3};
      assert o[d] == n[[1, 3, 0, 2][d]];
    }
    PermutationTable(o, n, n);
    PermutationScores(n);
    var moves := PermutationMoves(n);
    RunLeavesTable(moves, NetMoveScores(moves), fuel);
  }

  // ---------------------------------------------------------------------
  // The corrected cascade
  // ---------------------------------------------------------------------

  function Max(a: int, b: int): int {
    if a < b then b else a
  }

  /** extractReordering with its cascade cut down to the move table. */
  function ExtractStepClamped(moves: seq<Move>, s: seq<int>, r: SparseArray<int>): (st: Step)
    requires |s| <= |moves| && r.Valid()
    ensures st.Moved? ==> |st.scores| == |s| && st.reorderings.Valid()
    ensures !st.CascadeOutOfBounds?
  {
    var index := HighestNetMove(s);
    if index < 0 then NoMove
    else
      var score := s[index];
      var move := moves[index];
      var r' := r.Put(move.newIndex, move.oldIndex);
      var s' := s[index := 0];
      if score > 0 then Moved(Cascade(moves, s', Max(index - score, 0), index, 1), r')
      else if score < 0 then Moved(Cascade(moves, s', index + 1, Min(index - score, |moves| - 1) + 1, -1), r')
      else Moved(s', r')
  }

  /** Wherever the cascade as written stays inside the table the two steps agree. */
  lemma ClampedStepAgrees(moves: seq<Move>, s: seq<int>, r: SparseArray<int>)
    requires |s| <= |moves| && r.Valid()
    requires !ExtractStep(moves, s, r).CascadeOutOfBounds?
    ensures ExtractStepClamped(moves, s, r) == ExtractStep(moves, s, r)
  {
  }

  /** The loop of getReorderings with the corrected step; a finished loop hands back a well-formed table. */
  function RunClamped(moves: seq<Move>, s: seq<int>, r: SparseArray<int>, fuel: nat): (res: Reorderings)
    requires |s| <= |moves| && r.Valid()
    ensures res.Reordered? ==> res.reorderings.Valid()
    decreases fuel, 1
  {
    if fuel == 0 then OutOfFuel else TurnClamped(moves, s, r, fuel)
  }

  /** One call of the corrected step, then the rest of the loop with `fuel - 1` calls left. */
  function TurnClamped(moves: seq<Move>, s: seq<int>, r: SparseArray<int>, fuel: nat): (res: Reorderings)
    requires |s| <= |moves| && r.Valid() && fuel > 0
    ensures res.Reordered? ==> res.reorderings.Valid()
    decreases fuel, 0
  {
    match ExtractStepClamped(moves, s, r)
    case NoMove => Reordered(r)
    case CascadeOutOfBounds => IndexOutOfBounds
    case Moved(s', r') => RunClamped(moves, s', r', fuel - 1)
  }

  /** getReorderings with the corrected cascade; like the code as written, it finds nothing without an old list. */
  function ReorderClamped<T(==)>(oldList: Option<seq<T>>, newList: seq<T>, fuel: nat): (r: Reorderings)
    ensures oldList.None? && fuel > 0 ==> r == Reordered(Empty())
  {
    var moves := MoveTable(oldList, newList);
    assert oldList.None? ==> NetMoveScores(moves) == [] && ExtractStepClamped(moves, [], Empty()) == NoMove;
    assert oldList.None? && fuel > 0 ==> TurnClamped(moves, [], Empty(), fuel) == Reordered(Empty());
    RunClamped(moves, NetMoveScores(moves), Empty(), fuel)
  }

  lemma {:induction false} RunClampedInBounds(moves: seq<Move>, s: seq<int>, r: SparseArray<int>, fuel: nat)
    requires |s| <= |moves| && r.Valid()
    ensures RunClamped(moves, s, r, fuel) != IndexOutOfBounds
    decreases fuel
  {
    if fuel > 0 {
      match ExtractStepClamped(moves, s, r)
      case NoMove =>
      case Moved(s', r') => RunClampedInBounds(moves, s', r', fuel - 1);
    }
  }

  /**
   * The corrected process never reads outside the move table, whatever the
   * lists: it never ends in the out-of-bounds failure. It can still run out
   * of fuel.
   */
  lemma ReorderClampedInBounds<T>(oldList: Option<seq<T>>, newList: seq<T>, fuel: nat)
    ensures ReorderClamped(oldList, newList, fuel) != IndexOutOfBounds
  {
    var moves := MoveTable(oldList, newList);
    RunClampedInBounds(moves, NetMoveScores(moves), Empty(), fuel);
  }

  lemma {:induction false} RunClampedAgrees(moves: seq<Move>, s: seq<int>, r: SparseArray<int>, fuel: nat)
    requires |s| <= |moves| && r.Valid()
    requires Run(moves, s, r, fuel) != IndexOutOfBounds
    ensures RunClamped(moves, s, r, fuel) == Run(moves, s, r, fuel)
    decreases fuel
  {
    if fuel > 0 {
      ClampedStepAgrees(moves, s, r);
      match ExtractStep(moves, s, r)
      case NoMove =>
      case Moved(s', r') => RunClampedAgrees(moves, s', r', fuel - 1);
    }
  }

  /** Whenever getReorderings as written returns, the corrected one returns the same. */
  lemma ReorderClampedAgrees<T>(oldList: Option<seq<T>>, newList: seq<T>, fuel: nat)
    requires Reorder(oldList, newList, fuel) != IndexOutOfBounds
    ensures ReorderClamped(oldList, newList, fuel) == Reorder(oldList, newList, fuel)
  {
    var moves := MoveTable(oldList, newList);
    RunClampedAgrees(moves, NetMoveScores(moves), Empty(), fuel);
  }

  /** A cascade adjusts only entries with both indexes, so insertion scores stay at 0. */
  lemma CascadeSilent(moves: seq<Move>, s: seq<int>, lo: int, hi: int, delta: int)
    requires |s| <= |moves| && InsertionsSilent(moves, s)
    ensures InsertionsSilent(moves, Cascade(moves, s, lo, hi, delta))
  {
    var c := Cascade(moves, s, lo, hi, delta);
    forall p | 0 <= p < |c| && moves[p].oldIndex == NOT_PRESENT ensures c[p] == 0 {
      assert c[p] == Shifted(moves, s, lo, hi, delta, p);
    }
  }

  lemma StepClampedKeepsInvariants(moves: seq<Move>, n: nat, s: seq<int>, r: SparseArray<int>)
    requires WellFormed(moves, n) && |s| == n && r.Valid()
    requires InsertionsSilent(moves, s) && Recorded(moves, n, r)
    ensures var st := ExtractStepClamped(moves, s, r);
      st.Moved? ==> InsertionsSilent(moves, st.scores) && Recorded(moves, n, st.reorderings)
  {
    var index := HighestNetMove(s);
    if index >= 0 {
      var move := moves[index];
      var r' := r.Put(move.newIndex, move.oldIndex);
      forall k | r'.Find(k).Some?
        ensures 0 <= k < n && moves[k].oldIndex >= 0 && r'.Find(k).value == moves[k].oldIndex
      {
        PutFind(r, move.newIndex, move.oldIndex, k);
      }
      var score, s' := s[index], s[index := 0];
      assert InsertionsSilent(moves, s');
      if score > 0 {
        CascadeSilent(moves, s', Max(index - score, 0), index, 1);
      } else if score < 0 {
        CascadeSilent(moves, s', index + 1, Min(index - score, |moves| - 1) + 1, -1);
      }
    }
  }

  lemma {:induction false} RunClampedRecorded(moves: seq<Move>, n: nat, s: seq<int>, r: SparseArray<int>, fuel: nat)
    requires WellFormed(moves, n) && |s| == n && r.Valid()
    requires InsertionsSilent(moves, s) && Recorded(moves, n, r)
    ensures RecordedResult(moves, n, RunClamped(moves, s, r, fuel))
    decreases fuel
  {
    if fuel > 0 {
      StepClampedKeepsInvariants(moves, n, s, r);
      match ExtractStepClamped(moves, s, r)
      case NoMove =>
      case Moved(s', r') => RunClampedRecorded(moves, n, s', r', fuel - 1);
    }
  }

  /** The corrected process still pairs each new index with the first old index of the same item. */
  lemma ReorderClampedMatchesItems<T>(oldList: Option<seq<T>>, newList: seq<T>, fuel: nat)
    ensures var res := ReorderClamped(oldList, newList, fuel);
      res.Reordered? ==> res.reorderings.Valid() && forall k :: res.reorderings.Find(k).Some? ==>
        && oldList.Some?
        && 0 <= k < |newList|
        && var v := res.reorderings.Find(k).value;
           0 <= v < |oldList.value| && oldList.value[v] == newList[k] && v == IndexOf(oldList.value, newList[k])
  {
    var res := ReorderClamped(oldList, newList, fuel);
    var moves := MoveTable(oldList, newList);
    var n := Width(oldList, newList);
    MoveTableWellFormed(oldList, newList);
    ScoresStartSilent(moves, n);
    var e: SparseArray<int> := Empty();
    RunClampedRecorded(moves, n, NetMoveScores(moves), e, fuel);
    if res.Reordered? {
      var r := res.reorderings;
      forall k | r.Find(k).Some?
        ensures oldList.Some? && 0 <= k < |newList|
        ensures var v := r.Find(k).value;
          0 <= v < |oldList.value| && oldList.value[v] == newList[k] && v == IndexOf(oldList.value, newList[k])
      {
        MoveTableNewEntries(oldList.value, newList);
      }
    }
  }
}
