/**
 * Properties of the list-reconciliation engine: the insertion scores stay
 * 0 and so every recorded reordering pairs equal items; extra fuel does
 * not change a result; unchanged, unrelated or absent lists give no
 * reorderings; and the scenarios of the unit tests.
 */
module ListUtilsProperties {
  import opened Wrappers
  import opened SparseArrays
  import opened ListUtils

  /** Insertion entries (old index NOT_PRESENT) have score 0. */
  predicate InsertionsSilent(moves: seq<Move>, s: seq<int>)
    requires |s| <= |moves|
  {
    forall p :: 0 <= p < |s| && moves[p].oldIndex == NOT_PRESENT ==> s[p] == 0
  }

  /** Every recorded pair k -> v is table entry k, which is a move (v >= 0). */
  ghost predicate Recorded(moves: seq<Move>, n: nat, r: SparseArray<int>)
    requires r.Valid() && n <= |moves|
  {
    forall k :: r.Find(k).Some? ==> 0 <= k < n && moves[k].oldIndex >= 0 && r.Find(k).value == moves[k].oldIndex
  }

  /** A finished run's reorderings are well formed and recorded from the table. */
  ghost predicate RecordedResult(moves: seq<Move>, n: nat, res: Reorderings)
    requires n <= |moves|
  {
    res.Reordered? ==> res.reorderings.Valid() && Recorded(moves, n, res.reorderings)
  }

  lemma ScoresStartSilent(moves: seq<Move>, n: nat)
    requires WellFormed(moves, n)
    ensures |NetMoveScores(moves)| == n
    ensures InsertionsSilent(moves, NetMoveScores(moves))
  {
    NetMoveScoresClosedForm(moves, n);
  }

  /** One extraction step keeps both invariants. */
  lemma StepKeepsInvariants(moves: seq<Move>, n: nat, s: seq<int>, r: SparseArray<int>)
    requires WellFormed(moves, n) && |s| == n && r.Valid()
    requires InsertionsSilent(moves, s) && Recorded(moves, n, r)
    ensures var st := ExtractStep(moves, s, r);
      st.Moved? ==> InsertionsSilent(moves, st.scores) && Recorded(moves, n, st.reorderings)
  {
    var index := HighestNetMove(s);
    if index >= 0 {
      var move := moves[index];
      assert move.oldIndex >= 0;
      var r' := r.Put(move.newIndex, move.oldIndex);
      forall k | r'.Find(k).Some?
        ensures 0 <= k < n && moves[k].oldIndex >= 0 && r'.Find(k).value == moves[k].oldIndex
      {
        PutFind(r, move.newIndex, move.oldIndex, k);
      }
    }
  }

  /** Whatever the loop records is a table entry that moved. */
  lemma {:induction false} RunRecorded(moves: seq<Move>, n: nat, s: seq<int>, r: SparseArray<int>, fuel: nat)
    requires WellFormed(moves, n) && |s| == n && r.Valid()
    requires InsertionsSilent(moves, s) && Recorded(moves, n, r)
    ensures RecordedResult(moves, n, Run(moves, s, r, fuel))
    decreases fuel
  {
    if fuel > 0 {
      StepKeepsInvariants(moves, n, s, r);
      match ExtractStep(moves, s, r)
      case NoMove =>
      case CascadeOutOfBounds =>
      case Moved(s', r') => RunRecorded(moves, n, s', r', fuel - 1);
    }
  }

  lemma ReorderRecorded<T>(oldList: Option<seq<T>>, newList: seq<T>, fuel: nat)
    ensures var res := Reorder(oldList, newList, fuel);
      RecordedResult(MoveTable(oldList, newList), Width(oldList, newList), res)
  {
    var moves := MoveTable(oldList, newList);
    var n := Width(oldList, newList);
    MoveTableWellFormed(oldList, newList);
    ScoresStartSilent(moves, n);
    var e: SparseArray<int> := Empty();
    RunRecorded(moves, n, NetMoveScores(moves), e, fuel);
  }

  /**
   * Every reordering k -> v getReorderings returns names the first old
   * index holding the item at new index k; none is produced without an
   * old list.
   */
  lemma ReorderingsMatchItems<T>(oldList: Option<seq<T>>, newList: seq<T>, fuel: nat)
    ensures var res := Reorder(oldList, newList, fuel);
      res.Reordered? ==> res.reorderings.Valid() && forall k :: res.reorderings.Find(k).Some? ==>
        && oldList.Some?
        && 0 <= k < |newList|
        && var v := res.reorderings.Find(k).value;
           0 <= v < |oldList.value| && oldList.value[v] == newList[k] && v == IndexOf(oldList.value, newList[k])
  {
    var res := Reorder(oldList, newList, fuel);
    var moves := MoveTable(oldList, newList);
    ReorderRecorded(oldList, newList, fuel);
    if res.Reordered? {
      var r := res.reorderings;
      forall k | r.Find(k).Some?
        ensures oldList.Some? && 0 <= k < |newList|
        ensures var v := r.Find(k).value;
          0 <= v < |oldList.value| && oldList.value[v] == newList[k] && v == IndexOf(oldList.value, newList[k])
      {
        assert 0 <= k < Width(oldList, newList) && moves[k].oldIndex >= 0 && r.Find(k).value == moves[k].oldIndex;
        MoveTableNewEntries(oldList.value, newList);
      }
    }
  }

  /** More fuel than a finished run needed changes nothing. */
  lemma {:induction false} RunFuelMonotone(moves: seq<Move>, s: seq<int>, r: SparseArray<int>, fuel: nat, more: nat)
    requires |s| <= |moves| && r.Valid()
    requires Run(moves, s, r, fuel) != OutOfFuel
    ensures Run(moves, s, r, fuel + more) == Run(moves, s, r, fuel)
    decreases fuel
  {
    match ExtractStep(moves, s, r)
    case NoMove =>
    case CascadeOutOfBounds =>
    case Moved(s', r') => RunFuelMonotone(moves, s', r', fuel - 1, more);
  }

  /** No item occurs twice. */
  predicate Distinct<T(==)>(l: seq<T>) {
    forall i, j :: 0 <= i < j < |l| ==> l[i] != l[j]
  }

  lemma {:induction false} DeletedMovesNone<T>(o: seq<T>, n: seq<T>, k: nat)
    requires k <= |o| && forall d :: 0 <= d < k ==> o[d] in n
    ensures DeletedMoves(o, n, k) == []
  {
    if k > 0 {
      DeletedMovesNone(o, n, k - 1);
    }
  }

  lemma {:induction false} InsertionsBeforeNone(moves: seq<Move>, p: nat)
    requires p <= |moves| && forall m :: 0 <= m < p ==> moves[m].oldIndex >= 0
    ensures InsertionsBefore(moves, p) == 0
  {
    if p > 0 {
      InsertionsBeforeNone(moves, p - 1);
    }
  }

  lemma {:induction false} DeletionsBelowNone(moves: seq<Move>, k: nat, v: int)
    requires k <= |moves| && forall m :: 0 <= m < k ==> moves[m].newIndex >= 0
    ensures DeletionsBelow(moves, k, v) == 0
  {
    if k > 0 {
      DeletionsBelowNone(moves, k - 1, v);
    }
  }

  /** With every score 0 the first extraction finds nothing. */
  lemma QuietRun(moves: seq<Move>, s: seq<int>, r: SparseArray<int>, fuel: nat)
    requires |s| <= |moves| && r.Valid() && fuel > 0
    requires forall i :: 0 <= i < |s| ==> s[i] == 0
    ensures Run(moves, s, r, fuel) == Reordered(r)
  {
    assert HighestNetMove(s) == -1;
  }

  /** Without an old list there are no reorderings. */
  lemma ReorderWithoutOldList<T>(newList: seq<T>, fuel: nat)
    requires fuel > 0
    ensures Reorder(None, newList, fuel) == Reordered(Empty())
  {
    assert NetMoveScores(MoveTable(None, newList)) == [];
    QuietRun([], [], Empty(), fuel);
  }

  /** A list without repeated items compared with itself: every entry keeps its index. */
  lemma UnchangedTable<T>(l: seq<T>)
    requires Distinct(l)
    ensures var moves := MoveTable(Some(l), l);
      |moves| == |l| && forall p :: 0 <= p < |l| ==> moves[p] == Move(p, p)
  {
    var moves := MoveTable(Some(l), l);
    MoveTableNewEntries(l, l);
    DeletedMovesNone(l, l, |l|);
    assert |moves| == |l|;
    forall p | 0 <= p < |l| ensures moves[p] == Move(p, p) {
      assert IndexOf(l, l[p]) == p;
    }
  }

  /** A table in which every entry keeps its index scores 0 everywhere. */
  lemma IdentityScoresZero(moves: seq<Move>, n: nat)
    requires WellFormed(moves, n) && |moves| == n
    requires forall p :: 0 <= p < n ==> moves[p] == Move(p, p)
    ensures |NetMoveScores(moves)| == n
    ensures forall p :: 0 <= p < n ==> NetMoveScores(moves)[p] == 0
  {
    NetMoveScoresClosedForm(moves, n);
    forall p | 0 <= p < n ensures NetMoveScores(moves)[p] == 0 {
      InsertionsBeforeNone(moves, p);
      DeletionsBelowNone(moves, |moves|, moves[p].oldIndex);
    }
  }

  /** A list without repeated items compared with itself has no reorderings. */
  lemma ReorderUnchanged<T>(l: seq<T>, fuel: nat)
    requires Distinct(l) && fuel > 0
    ensures Reorder(Some(l), l, fuel) == Reordered(Empty())
  {
    var moves := MoveTable(Some(l), l);
    UnchangedTable(l);
    MoveTableWellFormed(Some(l), l);
    IdentityScoresZero(moves, |l|);
    QuietRun(moves, NetMoveScores(moves), Empty(), fuel);
  }

  /** Lists with no item in common have no reorderings: every entry is an insertion or a deletion. */
  lemma ReorderNothingShared<T>(o: seq<T>, newList: seq<T>, fuel: nat)
    requires fuel > 0 && forall x :: x in newList ==> x !in o
    ensures Reorder(Some(o), newList, fuel) == Reordered(Empty())
  {
    var moves := MoveTable(Some(o), newList);
    MoveTableNewEntries(o, newList);
    MoveTableWellFormed(Some(o), newList);
    ScoresStartSilent(moves, |newList|);
    var s := NetMoveScores(moves);
    forall p | 0 <= p < |newList| ensures s[p] == 0 {
      assert newList[p] in newList;
    }
    QuietRun(moves, s, Empty(), fuel);
  }
}
