/**
 * The list-reconciliation engine (ListUtils): given an old and a new list it
 * computes the inserted new indices, the deleted old indices, and a greedy
 * set of reorderings (new index -> old index) found from a move table and
 * a list of signed net-move scores.
 */
module ListUtils {
  import opened Wrappers
  import opened SparseArrays

  /** Reorderable.NOT_PRESENT: "no matching item in the other list". */
  const NOT_PRESENT: int := -1

  /** `java.util.List.indexOf`: the first index holding `x`, or -1. */
  function IndexOf<T(==)>(s: seq<T>, x: T): (r: int)
    ensures -1 <= r < |s|
    ensures r == -1 <==> x !in s
    ensures r >= 0 ==> s[r] == x && forall j :: 0 <= j < r ==> s[j] != x
  {
    if |s| == 0 then -1
    else if s[0] == x then 0
    else var r := IndexOf(s[1..], x); if r < 0 then -1 else r + 1
  }

  // ---------------------------------------------------------------------
  // Insertions and deletions
  // ---------------------------------------------------------------------

  /**
   * `r` marks with `true` exactly the indices below `upTo` of `items` whose
   * item occurs nowhere in `other`.
   */
  ghost predicate MarksAbsent<T>(r: SparseArray<bool>, items: seq<T>, other: seq<T>, upTo: int)
    requires 0 <= upTo <= |items|
  {
    && r.Valid()
    && (forall k :: k in r.keys <==> 0 <= k < upTo && items[k] !in other)
    && (forall i :: 0 <= i < |r.keys| ==> r.keys[i] < upTo)
    && (forall i :: 0 <= i < |r.values| ==> r.values[i])
  }

  /** One iteration of the loops of getInsertions and getDeletions. */
  lemma MarksAbsentStep<T>(r: SparseArray<bool>, items: seq<T>, other: seq<T>, i: int)
    requires 0 <= i < |items| && MarksAbsent(r, items, other, i)
    ensures items[i] !in other ==> MarksAbsent(r.Put(i, true), items, other, i + 1)
    ensures items[i] in other ==> MarksAbsent(r, items, other, i + 1)
  {
    if items[i] !in other {
      PutAbove(r, i, true);
      var r' := r.Put(i, true);
      assert r'.keys == r.keys + [i] && r'.values == r.values + [true];
      forall k ensures k in r'.keys <==> 0 <= k < i + 1 && items[k] !in other {
        assert k in r'.keys <==> k in r.keys || k == i;
      }
    }
  }

  /**
   * getInsertions: the keys are exactly the new indices whose item occurs
   * nowhere in the old list (none at all when there is no old list), each
   * stored with the value true.
   */
  method GetInsertions<T(==)>(oldList: Option<seq<T>>, newList: seq<T>) returns (r: SparseArray<bool>)
    ensures r.Valid()
    ensures oldList.None? ==> r.Size() == 0
    ensures oldList.Some? ==> forall k :: k in r.keys <==> 0 <= k < |newList| && newList[k] !in oldList.value
    ensures forall i :: 0 <= i < |r.values| ==> r.values[i]
  {
    r := Empty();
    if oldList.Some? {
      var size := |newList|;
      for newIndex := 0 to size
        invariant MarksAbsent(r, newList, oldList.value, newIndex)
      {
        var item := newList[newIndex];
        MarksAbsentStep(r, newList, oldList.value, newIndex);
        if IndexOf(oldList.value, item) == NOT_PRESENT {
          r := r.Put(newIndex, true);
        }
      }
    }
  }

  /**
   * getDeletions: the keys are exactly the old indices whose item occurs
   * nowhere in the new list (none at all when there is no old list).
   */
  method GetDeletions<T(==)>(oldList: Option<seq<T>>, newList: seq<T>) returns (r: SparseArray<bool>)
    ensures r.Valid()
    ensures oldList.None? ==> r.Size() == 0
    ensures oldList.Some? ==> forall k :: k in r.keys <==> 0 <= k < |oldList.value| && oldList.value[k] !in newList
    ensures forall i :: 0 <= i < |r.values| ==> r.values[i]
  {
    r := Empty();
    if oldList.Some? {
      var size := |oldList.value|;
      for oldIndex := 0 to size
        invariant MarksAbsent(r, oldList.value, newList, oldIndex)
      {
        var item := oldList.value[oldIndex];
        MarksAbsentStep(r, oldList.value, newList, oldIndex);
        if IndexOf(newList, item) == NOT_PRESENT {
          r := r.Put(oldIndex, true);
        }
      }
    }
  }

  // ---------------------------------------------------------------------
  // The move table
  // ---------------------------------------------------------------------

  /** A `Pair<Integer, Integer>` of the move table: (index in old, index in new). */
  datatype Move = Move(oldIndex: int, newIndex: int)

  /** The first `k` entries: new index n paired with the first old index of new[n]. */
  function NewMoves<T(==)>(o: seq<T>, n: seq<T>, k: nat): (r: seq<Move>)
    requires k <= |n|
    ensures |r| == k
    ensures forall i :: 0 <= i < k ==> r[i] == Move(IndexOf(o, n[i]), i)
  {
    if k == 0 then [] else NewMoves(o, n, k - 1) + [Move(IndexOf(o, n[k - 1]), k - 1)]
  }

  /** The deleted old indices below `k`, in ascending order, paired with NOT_PRESENT. */
  function DeletedMoves<T(==)>(o: seq<T>, n: seq<T>, k: nat): seq<Move>
    requires k <= |o|
  {
    if k == 0 then []
    else DeletedMoves(o, n, k - 1) + (if o[k - 1] in n then [] else [Move(k - 1, NOT_PRESENT)])
  }

  /**
   * The tail of the move table lists exactly the old indices whose item
   * is absent from the new list, in ascending order, each with NOT_PRESENT.
   */
  lemma {:induction false} DeletedMovesShape<T>(o: seq<T>, n: seq<T>, k: nat)
    requires k <= |o|
    ensures var r := DeletedMoves(o, n, k);
      && (forall i :: 0 <= i < |r| ==> r[i].newIndex == NOT_PRESENT && 0 <= r[i].oldIndex < k && o[r[i].oldIndex] !in n)
      && (forall i, j :: 0 <= i < j < |r| ==> r[i].oldIndex < r[j].oldIndex)
      && (forall d :: 0 <= d < k && o[d] !in n ==> Move(d, NOT_PRESENT) in r)
  {
    if k > 0 {
      DeletedMovesShape(o, n, k - 1);
    }
  }

  /** The move table calculateMoves builds. */
  function MoveTable<T(==)>(oldList: Option<seq<T>>, newList: seq<T>): seq<Move> {
    match oldList
    case None => []
    case Some(o) => NewMoves(o, newList, |newList|) + DeletedMoves(o, newList, |o|)
  }

  /** calculateMoves */
  method CalculateMoves<T(==)>(oldList: Option<seq<T>>, newList: seq<T>) returns (list: seq<Move>)
    ensures list == MoveTable(oldList, newList)
  {
    list := [];
    if oldList.Some? {
      var o := oldList.value;
      var newPosition := 0;
      while newPosition < |newList|
        invariant 0 <= newPosition <= |newList|
        invariant list == NewMoves(o, newList, newPosition)
      {
        var oldPosition := IndexOf(o, newList[newPosition]);
        if oldPosition < 0 {
          oldPosition := NOT_PRESENT;
        }
        assert list[..newPosition] == list && list[newPosition..] == [];
        list := list[..newPosition] + [Move(oldPosition, newPosition)] + list[newPosition..];
        newPosition := newPosition + 1;
      }
      var oldPosition := 0;
      while oldPosition < |o|
        invariant 0 <= oldPosition <= |o|
        invariant list == NewMoves(o, newList, |newList|) + DeletedMoves(o, newList, oldPosition)
      {
        if o[oldPosition] !in newList {
          list := list + [Move(oldPosition, NOT_PRESENT)];
        }
        oldPosition := oldPosition + 1;
      }
    }
  }

  /**
   * The shape every routine after calculateMoves relies on ("all deletions
   * are at the end of the list"): entry p < n pairs new index p with an old
   * index or NOT_PRESENT, and every later entry is a deleted old index.
   */
  predicate WellFormed(moves: seq<Move>, n: nat) {
    && n <= |moves|
    && (forall p :: 0 <= p < n ==> moves[p].newIndex == p && moves[p].oldIndex >= NOT_PRESENT)
    && (forall p :: n <= p < |moves| ==> moves[p].newIndex == NOT_PRESENT && moves[p].oldIndex >= 0)
  }

  /** The number of entries of the move table that carry a new index. */
  function Width<T>(oldList: Option<seq<T>>, newList: seq<T>): nat {
    if oldList.Some? then |newList| else 0
  }

  /** Entry n < |newList| of the table pairs the first old index of newList[n] with n. */
  lemma MoveTableNewEntries<T>(o: seq<T>, newList: seq<T>)
    ensures forall k :: 0 <= k < |newList| ==> MoveTable(Some(o), newList)[k] == Move(IndexOf(o, newList[k]), k)
  {
    var a := NewMoves(o, newList, |newList|);
    forall k | 0 <= k < |newList| ensures MoveTable(Some(o), newList)[k] == a[k] {
    }
  }

  lemma MoveTableWellFormed<T>(oldList: Option<seq<T>>, newList: seq<T>)
    ensures WellFormed(MoveTable(oldList, newList), Width(oldList, newList))
  {
    if oldList.Some? {
      var o := oldList.value;
      var a := NewMoves(o, newList, |newList|);
      var d := DeletedMoves(o, newList, |o|);
      var t := a + d;
      DeletedMovesShape(o, newList, |o|);
      forall p | |newList| <= p < |t| ensures t[p].newIndex == NOT_PRESENT && t[p].oldIndex >= 0 {
        assert t[p] == d[p - |newList|];
      }
    }
  }

  // ---------------------------------------------------------------------
  // Net move scores
  // ---------------------------------------------------------------------

  /**
   * The scores calculateNetMoveScores starts from: one per table entry that
   * has a new index, new minus old for a move and 0 for an insertion;
   * deleted entries contribute no score.
   */
  function RawScores(moves: seq<Move>): (r: seq<int>)
    ensures |r| <= |moves|
  {
    if |moves| == 0 then []
    else
      var m := moves[|moves| - 1];
      RawScores(moves[..|moves| - 1]) +
        (if m.oldIndex >= 0 && m.newIndex >= 0 then [m.newIndex - m.oldIndex]
         else if m.newIndex >= 0 then [0]
         else [])
  }

  lemma {:induction false} WellFormedPrefix(moves: seq<Move>, n: nat, k: nat)
    requires WellFormed(moves, n) && k <= |moves|
    ensures WellFormed(moves[..k], if k < n then k else n)
  {
  }

  /** On a well-formed table the raw scores are aligned with the first n entries. */
  lemma {:induction false} RawScoresAligned(moves: seq<Move>, n: nat)
    requires WellFormed(moves, n)
    ensures |RawScores(moves)| == n
    ensures forall p :: 0 <= p < n ==>
      RawScores(moves)[p] == if moves[p].oldIndex >= 0 then p - moves[p].oldIndex else 0
  {
    if |moves| > 0 {
      var k := |moves| - 1;
      var n' := if k < n then k else n;
      WellFormedPrefix(moves, n, k);
      RawScoresAligned(moves[..k], n');
    }
  }

  /**
   * getNewIndicesOfOldIndicesAboveIndex, as a value: in table order, the new
   * index of every entry whose old index exceeds `index` and that has one.
   */
  function Above(index: int, moves: seq<Move>): seq<int> {
    if |moves| == 0 then []
    else
      var m := moves[|moves| - 1];
      Above(index, moves[..|moves| - 1]) + (if m.oldIndex > index && m.newIndex >= 0 then [m.newIndex] else [])
  }

  /** On a well-formed table those are exactly the positions p < n whose old index exceeds `index`, ascending. */
  lemma {:induction false} AboveWellFormed(index: int, moves: seq<Move>, n: nat)
    requires WellFormed(moves, n)
    ensures forall x :: x in Above(index, moves) <==> 0 <= x < n && moves[x].oldIndex > index
    ensures StrictlyAscending(Above(index, moves))
    ensures forall x :: x in Above(index, moves) ==> x < n
  {
    if |moves| > 0 {
      var k := |moves| - 1;
      var n' := if k < n then k else n;
      WellFormedPrefix(moves, n, k);
      AboveWellFormed(index, moves[..k], n');
      var a := Above(index, moves[..k]);
      assert moves[..k] + [moves[k]] == moves;
      if moves[k].oldIndex > index && moves[k].newIndex >= 0 {
        var b := a + [moves[k].newIndex];
        forall i | 0 < i < |b| ensures b[i - 1] < b[i] {
          if i == |a| {
            assert b[i - 1] in a;
          }
        }
      }
    }
  }

  method GetNewIndicesOfOldIndicesAboveIndex(index: int, moveList: seq<Move>) returns (list: seq<int>)
    ensures list == Above(index, moveList)
  {
    list := [];
    for i := 0 to |moveList|
      invariant list == Above(index, moveList[..i])
    {
      assert moveList[..i + 1][..i] == moveList[..i];
      var move := moveList[i];
      if move.oldIndex > index && move.newIndex >= 0 {
        list := list + [move.newIndex];
      }
    }
    assert moveList[..|moveList|] == moveList;
  }

  /** The change table entry m makes to score x in cleanNetMoveList. */
  function Delta(moves: seq<Move>, m: nat, x: nat): int
    requires m < |moves| && x < |moves|
  {
    var move := moves[m];
    if move.oldIndex < 0 then
      (if move.newIndex + 1 <= x && moves[x].oldIndex != NOT_PRESENT then -1 else 0)
    else if move.newIndex < 0 then
      (if x in Above(move.oldIndex, moves) && moves[x].newIndex != NOT_PRESENT then 1 else 0)
    else 0
  }

  /** The scores after the correction for table entry m. */
  function Correct(moves: seq<Move>, m: nat, s: seq<int>): (r: seq<int>)
    requires m < |moves| && |s| <= |moves|
  {
    seq(|s|, x => Adjusted(moves, m, s, x))
  }

  function Adjusted(moves: seq<Move>, m: nat, s: seq<int>, x: int): int {
    if m < |moves| && 0 <= x < |s| && x < |moves| then s[x] + Delta(moves, m, x) else 0
  }

  /** The scores after the corrections for the first k table entries. */
  function Corrected(moves: seq<Move>, k: nat, s: seq<int>): (r: seq<int>)
    requires k <= |moves| && |s| <= |moves|
    ensures |r| == |s|
  {
    if k == 0 then s else Correct(moves, k - 1, Corrected(moves, k - 1, s))
  }

  /** calculateNetMoveScores */
  function NetMoveScores(moves: seq<Move>): seq<int> {
    Corrected(moves, |moves|, RawScores(moves))
  }

  /** The number of insertion entries among the first p. */
  function InsertionsBefore(moves: seq<Move>, p: nat): nat
    requires p <= |moves|
  {
    if p == 0 then 0 else InsertionsBefore(moves, p - 1) + (if moves[p - 1].oldIndex < 0 then 1 else 0)
  }

  /** The number of deletion entries among the first k whose old index is below v. */
  function DeletionsBelow(moves: seq<Move>, k: nat, v: int): nat
    requires k <= |moves|
  {
    if k == 0 then 0
    else
      var m := moves[k - 1];
      DeletionsBelow(moves, k - 1, v) + (if m.oldIndex >= 0 && m.newIndex < 0 && m.oldIndex < v then 1 else 0)
  }

  function Min(a: int, b: int): int {
    if a < b then a else b
  }

  /** Score x after the first k corrections, counted directly. */
  function ClosedForm(moves: seq<Move>, k: nat, s: seq<int>, x: nat): int
    requires k <= |moves| && x < |s| && x < |moves|
  {
    s[x] - (if moves[x].oldIndex != NOT_PRESENT then InsertionsBefore(moves, Min(k, x)) else 0)
      + DeletionsBelow(moves, k, moves[x].oldIndex)
  }

  lemma {:induction false} CorrectedClosedForm(moves: seq<Move>, n: nat, k: nat, s: seq<int>)
    requires WellFormed(moves, n) && |s| == n && k <= |moves|
    ensures forall x :: 0 <= x < n ==> Corrected(moves, k, s)[x] == ClosedForm(moves, k, s, x)
  {
    if k > 0 {
      CorrectedClosedForm(moves, n, k - 1, s);
      forall x | 0 <= x < n ensures Corrected(moves, k, s)[x] == ClosedForm(moves, k, s, x) {
        CorrectedStep(moves, n, k, s, x);
      }
    }
  }

  /** Correction k - 1 moves score x from the closed form for k - 1 to the one for k. */
  lemma CorrectedStep(moves: seq<Move>, n: nat, k: nat, s: seq<int>, x: nat)
    requires WellFormed(moves, n) && |s| == n && 0 < k <= |moves| && x < n
    requires Corrected(moves, k - 1, s)[x] == ClosedForm(moves, k - 1, s, x)
    ensures Corrected(moves, k, s)[x] == ClosedForm(moves, k, s, x)
  {
    DeltaClosedForm(moves, n, k - 1, x);
  }

  /** One entry's correction, in terms of the counts it advances. */
  lemma DeltaClosedForm(moves: seq<Move>, n: nat, m: nat, x: nat)
    requires WellFormed(moves, n) && m < |moves| && x < n
    ensures Delta(moves, m, x) ==
      - (if moves[x].oldIndex != NOT_PRESENT then InsertionsBefore(moves, Min(m + 1, x)) - InsertionsBefore(moves, Min(m, x)) else 0)
      + DeletionsBelow(moves, m + 1, moves[x].oldIndex) - DeletionsBelow(moves, m, moves[x].oldIndex)
  {
    if moves[m].oldIndex >= 0 && moves[m].newIndex < 0 {
      AboveWellFormed(moves[m].oldIndex, moves, n);
    }
  }

  lemma {:induction false} NoDeletionsBelowZero(moves: seq<Move>, k: nat, v: int)
    requires k <= |moves| && v <= 0
    ensures DeletionsBelow(moves, k, v) == 0
  {
    if k > 0 {
      NoDeletionsBelowZero(moves, k - 1, v);
    }
  }

  /**
   * The score list has one entry per new index. An insertion's score is 0;
   * any other entry scores its displacement new - old, minus one for each
   * insertion before it, plus one for each deleted old index below its own.
   */
  lemma NetMoveScoresClosedForm(moves: seq<Move>, n: nat)
    requires WellFormed(moves, n)
    ensures |NetMoveScores(moves)| == n
    ensures forall p :: 0 <= p < n ==>
      NetMoveScores(moves)[p] ==
        if moves[p].oldIndex == NOT_PRESENT then 0
        else p - moves[p].oldIndex - InsertionsBefore(moves, p) + DeletionsBelow(moves, |moves|, moves[p].oldIndex)
  {
    RawScoresAligned(moves, n);
    CorrectedClosedForm(moves, n, |moves|, RawScores(moves));
    forall p | 0 <= p < n && moves[p].oldIndex == NOT_PRESENT
      ensures DeletionsBelow(moves, |moves|, moves[p].oldIndex) == 0
    {
      NoDeletionsBelowZero(moves, |moves|, moves[p].oldIndex);
    }
  }

  /**
   * cleanNetMoveList, for one insertion entry m: every later score whose
   * entry is not an insertion loses 1.
   */
  method CorrectForInsertion(netMoveScores: array<int>, moveList: seq<Move>, m: nat)
    requires WellFormed(moveList, netMoveScores.Length) && m < |moveList| && moveList[m].oldIndex < 0
    modifies netMoveScores
    ensures netMoveScores[..] == Correct(moveList, m, old(netMoveScores[..]))
  {
    ghost var before := netMoveScores[..];
    var move := moveList[m];
    var j := move.newIndex + 1;
    while j < netMoveScores.Length
      invariant move.newIndex + 1 <= j <= netMoveScores.Length
      invariant forall x :: 0 <= x < netMoveScores.Length ==>
        netMoveScores[x] == before[x] + (if x < j then Delta(moveList, m, x) else 0)
    {
      if moveList[j].oldIndex != NOT_PRESENT {
        netMoveScores[j] := netMoveScores[j] - 1;
      }
      j := j + 1;
    }
    assert netMoveScores[..] == Correct(moveList, m, before);
  }

  /**
   * cleanNetMoveList, for one deletion entry m: every score whose old index
   * is above the deleted one gains 1.
   */
  method CorrectForDeletion(netMoveScores: array<int>, moveList: seq<Move>, m: nat)
    requires WellFormed(moveList, netMoveScores.Length) && m < |moveList|
    requires moveList[m].oldIndex >= 0 && moveList[m].newIndex < 0
    modifies netMoveScores
    ensures netMoveScores[..] == Correct(moveList, m, old(netMoveScores[..]))
  {
    ghost var before := netMoveScores[..];
    var move := moveList[m];
    var above := GetNewIndicesOfOldIndicesAboveIndex(move.oldIndex, moveList);
    AboveWellFormed(move.oldIndex, moveList, netMoveScores.Length);
    for t := 0 to |above|
      invariant forall x :: 0 <= x < netMoveScores.Length ==>
        netMoveScores[x] == before[x] + (if x in above[..t] && moveList[x].newIndex != NOT_PRESENT then 1 else 0)
    {
      var j := above[t];
      assert j in above;
      AscendingFresh(above, t);
      assert forall x :: x in above[..t + 1] <==> x in above[..t] || x == j;
      if moveList[j].newIndex != NOT_PRESENT {
        netMoveScores[j] := netMoveScores[j] + 1;
      }
    }
    assert above[..|above|] == above;
    assert netMoveScores[..] == Correct(moveList, m, before);
  }

  /** cleanNetMoveList */
  method CleanNetMoveList(netMoveScores: array<int>, moveList: seq<Move>)
    requires WellFormed(moveList, netMoveScores.Length)
    modifies netMoveScores
    ensures netMoveScores[..] == Corrected(moveList, |moveList|, old(netMoveScores[..]))
  {
    ghost var s0 := netMoveScores[..];
    for i := 0 to |moveList|
      invariant netMoveScores[..] == Corrected(moveList, i, s0)
    {
      var move := moveList[i];
      if move.oldIndex < 0 {
        CorrectForInsertion(netMoveScores, moveList, i);
      } else if move.newIndex < 0 {
        CorrectForDeletion(netMoveScores, moveList, i);
      } else {
        assert netMoveScores[..] == Correct(moveList, i, netMoveScores[..]);
      }
    }
  }

  /** calculateNetMoveScores */
  method CalculateNetMoveScores(moveList: seq<Move>) returns (list: array<int>)
    requires WellFormed(moveList, |RawScores(moveList)|)
    ensures fresh(list)
    ensures list[..] == NetMoveScores(moveList)
  {
    var raw: seq<int> := [];
    for i := 0 to |moveList|
      invariant raw == RawScores(moveList[..i])
    {
      assert moveList[..i + 1][..i] == moveList[..i];
      var pair := moveList[i];
      if pair.oldIndex >= 0 && pair.newIndex >= 0 {
        raw := raw + [pair.newIndex - pair.oldIndex];
      } else if pair.newIndex >= 0 {
        raw := raw + [0];
      }
    }
    assert moveList[..|moveList|] == moveList;
    list := new int[|raw|](i requires 0 <= i < |raw| => raw[i]);
    assert list[..] == RawScores(moveList);
    CleanNetMoveList(list, moveList);
  }

  // ---------------------------------------------------------------------
  // Choosing and extracting a reordering
  // ---------------------------------------------------------------------

  /** Math.abs */
  function Abs(x: int): nat {
    if x < 0 then -x else x
  }

  /**
   * indexOfHighestNetMove: -1 when every score is 0, otherwise the lowest
   * index whose absolute score is maximal (the comparison is strict).
   */
  function HighestNetMove(s: seq<int>): (r: int)
    ensures -1 <= r < |s|
    ensures r == -1 <==> forall i :: 0 <= i < |s| ==> s[i] == 0
    ensures r >= 0 ==> forall i :: 0 <= i < |s| ==> Abs(s[i]) <= Abs(s[r])
    ensures r >= 0 ==> forall i :: 0 <= i < r ==> Abs(s[i]) < Abs(s[r])
  {
    if |s| == 0 then -1
    else
      var r := HighestNetMove(s[..|s| - 1]);
      var max := if r < 0 then 0 else Abs(s[r]);
      if Abs(s[|s| - 1]) > max then |s| - 1 else r
  }

  method IndexOfHighestNetMove(netMoveScores: array<int>) returns (index: int)
    ensures index == HighestNetMove(netMoveScores[..])
  {
    index := -1;
    var max := 0;
    for i := 0 to netMoveScores.Length
      invariant index == HighestNetMove(netMoveScores[..i])
      invariant max == if index < 0 then 0 else Abs(netMoveScores[index])
    {
      assert netMoveScores[..i + 1][..i] == netMoveScores[..i];
      var value := Abs(netMoveScores[i]);
      if value > max {
        index := i;
        max := value;
      }
    }
    assert netMoveScores[..netMoveScores.Length] == netMoveScores[..];
  }

  /** The scores with `delta` added to every entry in [lo, hi) that is present in both lists. */
  function Cascade(moves: seq<Move>, s: seq<int>, lo: int, hi: int, delta: int): (r: seq<int>)
    requires |s| <= |moves|
  {
    seq(|s|, x => Shifted(moves, s, lo, hi, delta, x))
  }

  function Shifted(moves: seq<Move>, s: seq<int>, lo: int, hi: int, delta: int, x: int): int {
    if 0 <= x < |s| && x < |moves| then
      s[x] + (if lo <= x < hi && moves[x].oldIndex != NOT_PRESENT && moves[x].newIndex != NOT_PRESENT then delta else 0)
    else 0
  }

  /** What one call of extractReordering does. */
  datatype Step =
    | NoMove
    | Moved(scores: seq<int>, reorderings: SparseArray<int>)
    | CascadeOutOfBounds   // moveList.get(i) throws IndexOutOfBoundsException

  /**
   * extractReordering: record the chosen entry's new -> old pair, zero its
   * score, then adjust by one every score the move passes over.
   */
  function ExtractStep(moves: seq<Move>, s: seq<int>, r: SparseArray<int>): (st: Step)
    requires |s| <= |moves| && r.Valid()
    ensures st.Moved? ==> |st.scores| == |s| && st.reorderings.Valid()
  {
    var index := HighestNetMove(s);
    if index < 0 then NoMove
    else
      var score := s[index];
      var move := moves[index];
      var r' := r.Put(move.newIndex, move.oldIndex);
      var s' := s[index := 0];
      if score > 0 then
        if index - score < 0 then CascadeOutOfBounds
        else Moved(Cascade(moves, s', index - score, index, 1), r')
      else if score < 0 then
        if index - score >= |moves| then CascadeOutOfBounds
        else Moved(Cascade(moves, s', index + 1, index - score + 1, -1), r')
      else Moved(s', r')
  }

  /** The three ways a call of extractReordering ends. */
  datatype Extraction = NotFound | Found | OutOfBounds

  /** The first for loop of extractReordering: every movable score from `lo` up to `index` gains one. */
  method CascadeUp(moveList: seq<Move>, netMoveScores: array<int>, lo: int, index: int)
    requires WellFormed(moveList, netMoveScores.Length) && 0 <= lo <= index < netMoveScores.Length
    modifies netMoveScores
    ensures netMoveScores[..] == Cascade(moveList, old(netMoveScores[..]), lo, index, 1)
  {
    ghost var s1 := netMoveScores[..];
    var i := lo;
    while i < index
      invariant lo <= i <= index
      invariant forall x :: 0 <= x < netMoveScores.Length ==>
        netMoveScores[x] == s1[x] + (if lo <= x < i && moveList[x].oldIndex != NOT_PRESENT && moveList[x].newIndex != NOT_PRESENT then 1 else 0)
    {
      if moveList[i].oldIndex != NOT_PRESENT && moveList[i].newIndex != NOT_PRESENT {
        netMoveScores[i] := netMoveScores[i] + 1;
      }
      i := i + 1;
    }
  }

  /** The second for loop of extractReordering: every movable score from `top` down past `index` loses one. */
  method CascadeDown(moveList: seq<Move>, netMoveScores: array<int>, index: int, top: int)
    requires WellFormed(moveList, netMoveScores.Length) && 0 <= index < netMoveScores.Length && index <= top < |moveList|
    modifies netMoveScores
    ensures netMoveScores[..] == Cascade(moveList, old(netMoveScores[..]), index + 1, top + 1, -1)
  {
    ghost var s1 := netMoveScores[..];
    var i := top;
    while i > index
      invariant index <= i <= top
      invariant forall x :: 0 <= x < netMoveScores.Length ==>
        netMoveScores[x] == s1[x] + (if i < x <= top && moveList[x].oldIndex != NOT_PRESENT && moveList[x].newIndex != NOT_PRESENT then -1 else 0)
    {
      if moveList[i].oldIndex != NOT_PRESENT && moveList[i].newIndex != NOT_PRESENT {
        netMoveScores[i] := netMoveScores[i] - 1;
      }
      i := i - 1;
    }
  }

  /** extractReordering; the reorderings come back as `updated`. */
  method ExtractReordering(moveList: seq<Move>, netMoveScores: array<int>, reorderings: SparseArray<int>)
    returns (outcome: Extraction, updated: SparseArray<int>)
    requires WellFormed(moveList, netMoveScores.Length) && reorderings.Valid()
    modifies netMoveScores
    ensures match ExtractStep(moveList, old(netMoveScores[..]), reorderings)
      case NoMove => outcome == NotFound && updated == reorderings && netMoveScores[..] == old(netMoveScores[..])
      case Moved(s, r) => outcome == Found && updated == r && netMoveScores[..] == s
      case CascadeOutOfBounds => outcome == OutOfBounds
  {
    var index := IndexOfHighestNetMove(netMoveScores);
    if index < 0 {
      return NotFound, reorderings;
    }
    var score := netMoveScores[index];
    var move := moveList[index];
    updated := reorderings.Put(move.newIndex, move.oldIndex);
    netMoveScores[index] := 0;
    if score > 0 {
      var i := index - score;
      if i < 0 {
        return OutOfBounds, updated;
      }
      CascadeUp(moveList, netMoveScores, i, index);
    } else if score < 0 {
      var i := index - score;
      if i >= |moveList| {
        return OutOfBounds, updated;
      }
      CascadeDown(moveList, netMoveScores, index, i);
    }
    outcome := Found;
  }

  // ---------------------------------------------------------------------
  // The reordering loop
  // ---------------------------------------------------------------------

  /** The result of getReorderings, or why there is none. */
  datatype Reorderings =
    | Reordered(reorderings: SparseArray<int>)
    | IndexOutOfBounds   // the cascade left the move table
    | OutOfFuel          // the loop ran more than the allowed number of steps

  /** `while (extractReordering(...))`, allowed at most `fuel` calls. */
  function Run(moves: seq<Move>, s: seq<int>, r: SparseArray<int>, fuel: nat): Reorderings
    requires |s| <= |moves| && r.Valid()
    decreases fuel, 1
  {
    if fuel == 0 then OutOfFuel else Turn(moves, s, r, fuel)
  }

  /** One call of extractReordering, then the rest of the loop with `fuel - 1` calls left. */
  function Turn(moves: seq<Move>, s: seq<int>, r: SparseArray<int>, fuel: nat): Reorderings
    requires |s| <= |moves| && r.Valid() && fuel > 0
    decreases fuel, 0
  {
    match ExtractStep(moves, s, r)
    case NoMove => Reordered(r)
    case CascadeOutOfBounds => IndexOutOfBounds
    case Moved(s', r') => Run(moves, s', r', fuel - 1)
  }

  /** A step that moves an entry hands the loop on to the new state with one call fewer. */
  lemma RunMoved(moves: seq<Move>, s: seq<int>, r: SparseArray<int>, fuel: nat)
    requires |s| <= |moves| && r.Valid() && fuel > 0
    requires ExtractStep(moves, s, r).Moved?
    ensures var st := ExtractStep(moves, s, r);
      Run(moves, s, r, fuel) == Run(moves, st.scores, st.reorderings, fuel - 1)
  {
  }

  /** getReorderings with a bound on the number of extraction steps. */
  function Reorder<T(==)>(oldList: Option<seq<T>>, newList: seq<T>, fuel: nat): Reorderings {
    var moves := MoveTable(oldList, newList);
    Run(moves, NetMoveScores(moves), Empty(), fuel)
  }

  /**
   * One turn of the loop of getReorderings with `remaining` steps left: either
   * the loop ends with `result`, or it goes on from the new scores and `updated`.
   */
  method ExtractTurn(moveList: seq<Move>, netMoveScores: array<int>, reorderings: SparseArray<int>, remaining: nat)
    returns (done: bool, result: Reorderings, updated: SparseArray<int>)
    requires WellFormed(moveList, netMoveScores.Length) && reorderings.Valid()
    modifies netMoveScores
    ensures done ==> result == Run(moveList, old(netMoveScores[..]), reorderings, remaining)
    ensures !done ==> remaining > 0 && updated.Valid()
    ensures !done ==> Run(moveList, netMoveScores[..], updated, remaining - 1) == Run(moveList, old(netMoveScores[..]), reorderings, remaining)
  {
    if remaining == 0 {
      return true, OutOfFuel, reorderings;
    }
    var outcome;
    outcome, updated := ExtractReordering(moveList, netMoveScores, reorderings);
    match outcome
    case NotFound =>
      return true, Reordered(reorderings), updated;
    case OutOfBounds =>
      return true, IndexOutOfBounds, updated;
    case Found =>
      return false, OutOfFuel, updated;
  }

  /** The loop of getReorderings, run on the score array at most `fuel` times. */
  method ExtractAll(moveList: seq<Move>, netMoveScores: array<int>, fuel: nat) returns (result: Reorderings)
    requires WellFormed(moveList, netMoveScores.Length)
    modifies netMoveScores
    ensures result == Run(moveList, old(netMoveScores[..]), Empty(), fuel)
  {
    var reorderings: SparseArray<int> := Empty();
    var remaining := fuel;
    ghost var goal := Run(moveList, netMoveScores[..], reorderings, remaining);
    while true
      invariant reorderings.Valid()
      invariant Run(moveList, netMoveScores[..], reorderings, remaining) == goal
      decreases remaining
    {
      var done, r, updated := ExtractTurn(moveList, netMoveScores, reorderings, remaining);
      if done {
        return r;
      }
      reorderings := updated;
      remaining := remaining - 1;
    }
  }

  /** getReorderings */
  method GetReorderings<T(==)>(oldList: Option<seq<T>>, newList: seq<T>, fuel: nat) returns (result: Reorderings)
    ensures result == Reorder(oldList, newList, fuel)
  {
    var moveList := CalculateMoves(oldList, newList);
    MoveTableWellFormed(oldList, newList);
    RawScoresAligned(moveList, Width(oldList, newList));
    var netMoveScores := CalculateNetMoveScores(moveList);
    result := ExtractAll(moveList, netMoveScores, fuel);
  }
}
