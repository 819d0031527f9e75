/**
 * RecursiveAdapper: stacks child adapters one after the other. A flat
 * position belongs to the first child whose items reach past it. The
 * change sets of the Reorderable children are shifted by the number of
 * items stacked before them: insertions by the current counts, deletions
 * by the counts recorded at the last update, and reorderings by the
 * current counts for the new index and the recorded counts for the old one.
 */
module RecursiveAdapters {
  import opened Wrappers
  import opened SparseArrays
  import opened SparseArrayUtils

  /**
   * A child adapter as the parent sees it. `id` stands for the object's
   * identity, which is what `equals` and the count map go by.
   */
  datatype Child = Child(
    id: int,
    count: nat,
    reorderable: bool,
    viewTypes: set<int>,
    insertions: SparseArray<bool>,
    deletions: SparseArray<bool>,
    reorderings: SparseArray<int>)
  {
    predicate Valid() {
      insertions.Valid() && deletions.Valid() && reorderings.Valid()
    }
  }

  predicate ChildrenValid(ads: seq<Child>) {
    forall k :: 0 <= k < |ads| ==> ads[k].Valid()
  }

  /** No child occurs twice. */
  predicate DistinctIds(ads: seq<Child>) {
    forall i, j :: 0 <= i < j < |ads| ==> ads[i].id != ads[j].id
  }

  /** Two entries with the same identity are the same adapter, so they agree on everything. */
  predicate Coherent(ads: seq<Child>) {
    forall i, j :: 0 <= i < |ads| && 0 <= j < |ads| && ads[i].id == ads[j].id ==> ads[i] == ads[j]
  }

  // ------------------------------------------------------------------ counts

  /** The items of the first k children. */
  function Before(ads: seq<Child>, k: nat): nat
    requires k <= |ads|
  {
    if k == 0 then 0 else Before(ads, k - 1) + ads[k - 1].count
  }

  function Total(ads: seq<Child>): nat {
    Before(ads, |ads|)
  }

  lemma {:induction false} BeforeMonotone(ads: seq<Child>, j: nat, k: nat)
    requires j <= k <= |ads|
    ensures Before(ads, j) <= Before(ads, k)
    decreases k - j
  {
    if j < k {
      BeforeMonotone(ads, j, k - 1);
    }
  }

  /** The index of the first child with identity `id`, or |ads| when there is none. */
  function FirstIndex(ads: seq<Child>, id: int): (k: nat)
    ensures k <= |ads|
    ensures forall j :: 0 <= j < k ==> ads[j].id != id
    ensures k < |ads| ==> ads[k].id == id
  {
    if ads == [] then 0
    else if ads[0].id == id then 0
    else 1 + FirstIndex(ads[1..], id)
  }

  /** getCountAtLastUpdate: the recorded count, 0 for an adapter never recorded. */
  function RecordedCount(m: map<int, int>, id: int): int {
    if id in m then m[id] else 0
  }

  /** The items of the first k children by the recorded counts. */
  function RecordedBefore(ads: seq<Child>, m: map<int, int>, k: nat): int
    requires k <= |ads|
  {
    if k == 0 then 0 else RecordedBefore(ads, m, k - 1) + RecordedCount(m, ads[k - 1].id)
  }

  /** Where child k's items start now: after the children before its first occurrence. */
  function Offset(ads: seq<Child>, k: nat): nat
    requires k < |ads|
  {
    Before(ads, FirstIndex(ads, ads[k].id))
  }

  /** Where child k's items started at the last update. */
  function RecordedOffset(ads: seq<Child>, m: map<int, int>, k: nat): int
    requires k < |ads|
  {
    RecordedBefore(ads, m, FirstIndex(ads, ads[k].id))
  }

  /** Without repeated children, a child starts right after the children before it. */
  lemma DistinctOffset(ads: seq<Child>, k: nat)
    requires DistinctIds(ads) && k < |ads|
    ensures Offset(ads, k) == Before(ads, k)
  {
    assert FirstIndex(ads, ads[k].id) == k;
  }

  // ---------------------------------------------------------------- locating

  datatype Location = Location(child: nat, position: int)

  /** Child k at local position q is what position p falls in: p is inside it and not inside an earlier child. */
  predicate Locates(ads: seq<Child>, p: int, k: nat, q: int) {
    k < |ads| && q < ads[k].count && Before(ads, k) + q == p &&
    forall j :: 0 < j <= k ==> Before(ads, j) <= p
  }

  /** A position falls in at most one child. */
  lemma LocatesUnique(ads: seq<Child>, p: int, k: nat, q: int, k': nat, q': int)
    requires Locates(ads, p, k, q) && Locates(ads, p, k', q')
    ensures k == k' && q == q'
  {
    LocatedEnd(ads, p, k, q);
    LocatedEnd(ads, p, k', q');
  }

  /** The position lies below where the locating child ends. */
  lemma LocatedEnd(ads: seq<Child>, p: int, k: nat, q: int)
    requires Locates(ads, p, k, q)
    ensures p < Before(ads, k + 1)
  {
  }

  /** Each item of a child is located in that child. */
  lemma ItemLocated(ads: seq<Child>, k: nat, q: int)
    requires k < |ads| && 0 <= q < ads[k].count
    ensures Locates(ads, Before(ads, k) + q, k, q)
  {
    forall j | 0 < j <= k ensures Before(ads, j) <= Before(ads, k) + q {
      BeforeMonotone(ads, j, k);
    }
  }

  /** Locating a position and shifting back by the child's offset gives the position again. */
  lemma LocatedOffset(ads: seq<Child>, p: int, k: nat, q: int)
    requires DistinctIds(ads) && Locates(ads, p, k, q)
    ensures q + Offset(ads, k) == p
  {
    DistinctOffset(ads, k);
  }

  // ------------------------------------------------------------ view types

  /** The view types of the first k children together. */
  function ViewTypesUpTo(ads: seq<Child>, k: nat): set<int>
    requires k <= |ads|
  {
    if k == 0 then {} else ViewTypesUpTo(ads, k - 1) + ads[k - 1].viewTypes
  }

  /** Children with the same view types, position by position, have the same union. */
  lemma {:induction false} ViewTypesAgree(a: seq<Child>, b: seq<Child>, k: nat)
    requires k <= |a| == |b|
    requires forall i :: 0 <= i < |a| ==> a[i].viewTypes == b[i].viewTypes
    ensures ViewTypesUpTo(a, k) == ViewTypesUpTo(b, k)
  {
    if k > 0 {
      ViewTypesAgree(a, b, k - 1);
    }
  }

  /** A view type is in the union exactly when some child has it. */
  lemma {:induction false} ViewTypesMembers(ads: seq<Child>, k: nat, t: int)
    requires k <= |ads|
    ensures t in ViewTypesUpTo(ads, k) <==> exists i :: 0 <= i < k && t in ads[i].viewTypes
  {
    if k > 0 {
      ViewTypesMembers(ads, k - 1, t);
    }
  }

  // ------------------------------------------------------------- snapshots

  /** The counts onChanged records for the first k children, a later entry of one id winning. */
  function Snapshot(ads: seq<Child>, k: nat): map<int, int>
    requires k <= |ads|
  {
    if k == 0 then map[] else Snapshot(ads, k - 1)[ads[k - 1].id := ads[k - 1].count]
  }

  /** The snapshot holds each child's current count. */
  lemma {:induction false} SnapshotAt(ads: seq<Child>, k: nat, i: nat)
    requires Coherent(ads) && i < k <= |ads|
    ensures ads[i].id in Snapshot(ads, k) && Snapshot(ads, k)[ads[i].id] == ads[i].count
  {
    if i < k - 1 {
      SnapshotAt(ads, k - 1, i);
      if ads[k - 1].id == ads[i].id {
        assert ads[k - 1] == ads[i];
      }
    }
  }

  /** Right after a snapshot the recorded offsets are the current ones. */
  lemma {:induction false} SnapshotOffsets(ads: seq<Child>, m: map<int, int>, k: nat)
    requires Coherent(ads) && k <= |ads|
    ensures RecordedBefore(ads, m + Snapshot(ads, |ads|), k) == Before(ads, k)
  {
    if k > 0 {
      SnapshotOffsets(ads, m, k - 1);
      SnapshotAt(ads, |ads|, k - 1);
    }
  }

  // ---------------------------------------------------------- change sets

  /** The first n keys of `a` moved by `offset`, each marked true. */
  function ShiftedFlags(a: SparseArray<bool>, n: nat, offset: int): map<int, bool>
    requires a.Valid() && n <= a.Size()
  {
    if n == 0 then map[] else ShiftedFlags(a, n - 1, offset)[a.keys[n - 1] + offset := true]
  }

  /** The first n entries of `a` with keys moved by `offset` and values by `oldOffset`. */
  function ShiftedMoves(a: SparseArray<int>, n: nat, offset: int, oldOffset: int): map<int, int>
    requires a.Valid() && n <= a.Size()
  {
    if n == 0 then map[] else ShiftedMoves(a, n - 1, offset, oldOffset)[a.keys[n - 1] + offset := a.values[n - 1] + oldOffset]
  }

  lemma {:induction false} ShiftedFlagsAt(a: SparseArray<bool>, n: nat, offset: int, x: int)
    requires a.Valid() && n <= a.Size()
    ensures x in ShiftedFlags(a, n, offset) <==> x - offset in a.keys[..n]
    ensures x in ShiftedFlags(a, n, offset) ==> ShiftedFlags(a, n, offset)[x]
  {
    if n > 0 {
      ShiftedFlagsAt(a, n - 1, offset, x);
      assert a.keys[..n] == a.keys[..n - 1] + [a.keys[n - 1]];
    }
  }

  lemma {:induction false} ShiftedMovesAt(a: SparseArray<int>, n: nat, offset: int, oldOffset: int, i: nat)
    requires a.Valid() && i < n <= a.Size()
    ensures a.keys[i] + offset in ShiftedMoves(a, n, offset, oldOffset)
    ensures ShiftedMoves(a, n, offset, oldOffset)[a.keys[i] + offset] == a.values[i] + oldOffset
  {
    if i < n - 1 {
      ShiftedMovesAt(a, n - 1, offset, oldOffset, i);
      AscendingPairs(a.keys, i, n - 1);
    }
  }

  lemma {:induction false} ShiftedMovesKeys(a: SparseArray<int>, n: nat, offset: int, oldOffset: int, x: int)
    requires a.Valid() && n <= a.Size()
    ensures x in ShiftedMoves(a, n, offset, oldOffset) <==> x - offset in a.keys[..n]
  {
    if n > 0 {
      ShiftedMovesKeys(a, n - 1, offset, oldOffset, x);
      assert a.keys[..n] == a.keys[..n - 1] + [a.keys[n - 1]];
    }
  }

  /** All keys of `a`, moved by `offset`, are marked true, and nothing else is marked. */
  lemma ShiftedFlagsAll(a: SparseArray<bool>, offset: int, x: int)
    requires a.Valid()
    ensures x in ShiftedFlags(a, a.Size(), offset) <==> x - offset in a.keys
    ensures x in ShiftedFlags(a, a.Size(), offset) ==> ShiftedFlags(a, a.Size(), offset)[x]
  {
    ShiftedFlagsAt(a, a.Size(), offset, x);
    assert a.keys[..a.Size()] == a.keys;
  }

  lemma ShiftedMovesAll(a: SparseArray<int>, offset: int, oldOffset: int, x: int)
    requires a.Valid()
    ensures x in ShiftedMoves(a, a.Size(), offset, oldOffset) <==> x - offset in a.keys
  {
    ShiftedMovesKeys(a, a.Size(), offset, oldOffset, x);
    assert a.keys[..a.Size()] == a.keys;
  }

  /** What the first k children contribute to getInsertions. */
  function InsertionsUpTo(ads: seq<Child>, k: nat): map<int, bool>
    requires k <= |ads| && ChildrenValid(ads)
  {
    if k == 0 then map[]
    else
      var c := ads[k - 1];
      InsertionsUpTo(ads, k - 1) + (if c.reorderable then ShiftedFlags(c.insertions, c.insertions.Size(), Offset(ads, k - 1)) else map[])
  }

  /** What the first k children contribute to getDeletions. */
  function DeletionsUpTo(ads: seq<Child>, m: map<int, int>, k: nat): map<int, bool>
    requires k <= |ads| && ChildrenValid(ads)
  {
    if k == 0 then map[]
    else
      var c := ads[k - 1];
      DeletionsUpTo(ads, m, k - 1) + (if c.reorderable then ShiftedFlags(c.deletions, c.deletions.Size(), RecordedOffset(ads, m, k - 1)) else map[])
  }

  /** What the first k children contribute to getReorderings. */
  function ReorderingsUpTo(ads: seq<Child>, m: map<int, int>, k: nat): map<int, int>
    requires k <= |ads| && ChildrenValid(ads)
  {
    if k == 0 then map[]
    else
      var c := ads[k - 1];
      ReorderingsUpTo(ads, m, k - 1) +
        (if c.reorderable then ShiftedMoves(c.reorderings, c.reorderings.Size(), Offset(ads, k - 1), RecordedOffset(ads, m, k - 1)) else map[])
  }

  /** Putting a child's flags, shifted by `offset`, over `prev` when `given` holds. */
  lemma FlagsStep(prev: map<int, bool>, a: SparseArray<bool>, given: bool, offset: int, x: int)
    requires a.Valid()
    ensures var next := prev + (if given then ShiftedFlags(a, a.Size(), offset) else map[]);
      && (x in next <==> x in prev || (given && x - offset in a.keys))
      && (given && x - offset in a.keys ==> next[x])
      && (!(given && x - offset in a.keys) && x in prev ==> next[x] == prev[x])
  {
    ShiftedFlagsAll(a, offset, x);
  }

  /** Child j is Reorderable and inserted the item now at flat position x. */
  predicate Inserted(ads: seq<Child>, j: nat, x: int)
    requires j < |ads|
  {
    ads[j].reorderable && x - Offset(ads, j) in ads[j].insertions.keys
  }

  /** Child j is Reorderable and deleted the item at flat position x as of the last update. */
  predicate Deleted(ads: seq<Child>, m: map<int, int>, j: nat, x: int)
    requires j < |ads|
  {
    ads[j].reorderable && x - RecordedOffset(ads, m, j) in ads[j].deletions.keys
  }

  /** Adding child k - 1 to getInsertions adds exactly the positions it inserted, each marked true. */
  lemma InsertionsStep(ads: seq<Child>, k: nat, x: int)
    requires 0 < k <= |ads| && ChildrenValid(ads)
    ensures x in InsertionsUpTo(ads, k) <==> x in InsertionsUpTo(ads, k - 1) || Inserted(ads, k - 1, x)
    ensures Inserted(ads, k - 1, x) ==> InsertionsUpTo(ads, k)[x]
    ensures !Inserted(ads, k - 1, x) && x in InsertionsUpTo(ads, k - 1) ==> InsertionsUpTo(ads, k)[x] == InsertionsUpTo(ads, k - 1)[x]
  {
    var c := ads[k - 1];
    assert c.Valid();
    var prev, offset := InsertionsUpTo(ads, k - 1), Offset(ads, k - 1);
    assert InsertionsUpTo(ads, k) == prev + (if c.reorderable then ShiftedFlags(c.insertions, c.insertions.Size(), offset) else map[]);
    assert Inserted(ads, k - 1, x) == (c.reorderable && x - offset in c.insertions.keys);
    FlagsStep(prev, c.insertions, c.reorderable, offset, x);
  }

  /** An inserted position is an insertion of some Reorderable child moved by that child's current offset; all are true. */
  lemma {:induction false} InsertionsAt(ads: seq<Child>, k: nat, x: int)
    requires k <= |ads| && ChildrenValid(ads)
    ensures x in InsertionsUpTo(ads, k) <==> exists j :: 0 <= j < k && Inserted(ads, j, x)
    ensures x in InsertionsUpTo(ads, k) ==> InsertionsUpTo(ads, k)[x]
  {
    if k > 0 {
      InsertionsAt(ads, k - 1, x);
      InsertionsStep(ads, k, x);
      if x in InsertionsUpTo(ads, k - 1) {
        var j :| 0 <= j < k - 1 && Inserted(ads, j, x);
        assert 0 <= j < k && Inserted(ads, j, x);
      }
      if exists j :: 0 <= j < k && Inserted(ads, j, x) {
        var j :| 0 <= j < k && Inserted(ads, j, x);
        if j < k - 1 {
          assert x in InsertionsUpTo(ads, k - 1);
        }
      }
    }
  }

  /** Adding child k - 1 to getDeletions adds exactly the positions it deleted, each marked true. */
  lemma DeletionsStep(ads: seq<Child>, m: map<int, int>, k: nat, x: int)
    requires 0 < k <= |ads| && ChildrenValid(ads)
    ensures x in DeletionsUpTo(ads, m, k) <==> x in DeletionsUpTo(ads, m, k - 1) || Deleted(ads, m, k - 1, x)
    ensures Deleted(ads, m, k - 1, x) ==> DeletionsUpTo(ads, m, k)[x]
    ensures !Deleted(ads, m, k - 1, x) && x in DeletionsUpTo(ads, m, k - 1) ==> DeletionsUpTo(ads, m, k)[x] == DeletionsUpTo(ads, m, k - 1)[x]
  {
    var c := ads[k - 1];
    assert c.Valid();
    var prev, offset := DeletionsUpTo(ads, m, k - 1), RecordedOffset(ads, m, k - 1);
    assert DeletionsUpTo(ads, m, k) == prev + (if c.reorderable then ShiftedFlags(c.deletions, c.deletions.Size(), offset) else map[]);
    assert Deleted(ads, m, k - 1, x) == (c.reorderable && x - offset in c.deletions.keys);
    FlagsStep(prev, c.deletions, c.reorderable, offset, x);
  }

  /** A deleted position is a deletion of some Reorderable child moved by that child's recorded offset; all are true. */
  lemma {:induction false} DeletionsAt(ads: seq<Child>, m: map<int, int>, k: nat, x: int)
    requires k <= |ads| && ChildrenValid(ads)
    ensures x in DeletionsUpTo(ads, m, k) <==> exists j :: 0 <= j < k && Deleted(ads, m, j, x)
    ensures x in DeletionsUpTo(ads, m, k) ==> DeletionsUpTo(ads, m, k)[x]
  {
    if k > 0 {
      DeletionsAt(ads, m, k - 1, x);
      DeletionsStep(ads, m, k, x);
      if x in DeletionsUpTo(ads, m, k - 1) {
        var j :| 0 <= j < k - 1 && Deleted(ads, m, j, x);
        assert 0 <= j < k && Deleted(ads, m, j, x);
      }
      if exists j :: 0 <= j < k && Deleted(ads, m, j, x) {
        var j :| 0 <= j < k && Deleted(ads, m, j, x);
        if j < k - 1 {
          assert x in DeletionsUpTo(ads, m, k - 1);
        }
      }
    }
  }

  /** Putting a child's moves over `prev` leaves a key the child does not move as it was. */
  lemma MovesStep(prev: map<int, int>, a: SparseArray<int>, given: bool, offset: int, oldOffset: int, x: int)
    requires a.Valid() && !(given && x - offset in a.keys)
    ensures var next := prev + (if given then ShiftedMoves(a, a.Size(), offset, oldOffset) else map[]);
      (x in next <==> x in prev) && (x in prev ==> next[x] == prev[x])
  {
    ShiftedMovesAll(a, offset, oldOffset, x);
  }

  /** Putting a child's moves over `prev` records its entry i with both ends shifted. */
  lemma MovesOwn(prev: map<int, int>, a: SparseArray<int>, offset: int, oldOffset: int, i: nat)
    requires a.Valid() && i < a.Size()
    ensures var next := prev + ShiftedMoves(a, a.Size(), offset, oldOffset);
      a.keys[i] + offset in next && next[a.keys[i] + offset] == a.values[i] + oldOffset
  {
    ShiftedMovesAt(a, a.Size(), offset, oldOffset, i);
  }

  /** Child j's own contribution to getReorderings records its move i with both ends shifted. */
  lemma ReorderingOwn(ads: seq<Child>, m: map<int, int>, j: nat, i: nat)
    requires j < |ads| && ChildrenValid(ads)
    requires ads[j].reorderable && i < ads[j].reorderings.Size()
    ensures var x := ads[j].reorderings.keys[i] + Offset(ads, j);
      x in ReorderingsUpTo(ads, m, j + 1) &&
      ReorderingsUpTo(ads, m, j + 1)[x] == ads[j].reorderings.values[i] + RecordedOffset(ads, m, j)
  {
    var c := ads[j];
    assert c.Valid();
    var prev, offset, oldOffset := ReorderingsUpTo(ads, m, j), Offset(ads, j), RecordedOffset(ads, m, j);
    assert ReorderingsUpTo(ads, m, j + 1) == prev + ShiftedMoves(c.reorderings, c.reorderings.Size(), offset, oldOffset);
    MovesOwn(prev, c.reorderings, offset, oldOffset, i);
  }

  /** A child that does not move position x leaves getReorderings at x as the earlier children made it. */
  lemma ReorderingKept(ads: seq<Child>, m: map<int, int>, k: nat, x: int)
    requires 0 < k <= |ads| && ChildrenValid(ads)
    requires !(ads[k - 1].reorderable && x - Offset(ads, k - 1) in ads[k - 1].reorderings.keys)
    ensures x in ReorderingsUpTo(ads, m, k) <==> x in ReorderingsUpTo(ads, m, k - 1)
    ensures x in ReorderingsUpTo(ads, m, k - 1) ==> ReorderingsUpTo(ads, m, k)[x] == ReorderingsUpTo(ads, m, k - 1)[x]
  {
    var c := ads[k - 1];
    assert c.Valid();
    var prev, offset, oldOffset := ReorderingsUpTo(ads, m, k - 1), Offset(ads, k - 1), RecordedOffset(ads, m, k - 1);
    assert ReorderingsUpTo(ads, m, k) == prev + (if c.reorderable then ShiftedMoves(c.reorderings, c.reorderings.Size(), offset, oldOffset) else map[]);
    MovesStep(prev, c.reorderings, c.reorderable, offset, oldOffset, x);
  }

  /** Child j's move i shows up with both ends shifted, unless a later Reorderable child moves the same position. */
  lemma {:induction false} ReorderingAt(ads: seq<Child>, m: map<int, int>, k: nat, j: nat, i: nat)
    requires k <= |ads| && ChildrenValid(ads) && j < k
    requires ads[j].reorderable && i < ads[j].reorderings.Size()
    requires forall l :: j < l < k && ads[l].reorderable ==>
      ads[j].reorderings.keys[i] + Offset(ads, j) - Offset(ads, l) !in ads[l].reorderings.keys
    ensures var x := ads[j].reorderings.keys[i] + Offset(ads, j);
      x in ReorderingsUpTo(ads, m, k) &&
      ReorderingsUpTo(ads, m, k)[x] == ads[j].reorderings.values[i] + RecordedOffset(ads, m, j)
    decreases k
  {
    if j == k - 1 {
      ReorderingOwn(ads, m, j, i);
    } else {
      ReorderingAt(ads, m, k - 1, j, i);
      ReorderingKept(ads, m, k, ads[j].reorderings.keys[i] + Offset(ads, j));
    }
  }

  /** Child j is Reorderable and moved the item now at flat position x. */
  predicate MovesPosition(ads: seq<Child>, j: nat, x: int)
    requires j < |ads|
  {
    ads[j].reorderable && x - Offset(ads, j) in ads[j].reorderings.keys
  }

  /**
   * Child j's move i lands on flat position x with value v, both ends
   * shifted, and no child after j and before k moves x.
   */
  predicate LastMove(ads: seq<Child>, m: map<int, int>, k: nat, j: nat, i: nat, x: int, v: int)
    requires k <= |ads| && ChildrenValid(ads) && j < k
  {
    && ads[j].reorderable && i < ads[j].reorderings.Size()
    && x == ads[j].reorderings.keys[i] + Offset(ads, j)
    && v == ads[j].reorderings.values[i] + RecordedOffset(ads, m, j)
    && forall l :: j < l < k ==> !MovesPosition(ads, l, x)
  }

  /** Adding child k - 1 to getReorderings: its own move wins at x, or x keeps what the earlier children gave it. */
  lemma ReorderingsStep(ads: seq<Child>, m: map<int, int>, k: nat, x: int)
    requires 0 < k <= |ads| && ChildrenValid(ads)
    ensures MovesPosition(ads, k - 1, x) ==>
      x in ReorderingsUpTo(ads, m, k) && exists j, i :: j == k - 1 && LastMove(ads, m, k, j, i, x, ReorderingsUpTo(ads, m, k)[x])
    ensures !MovesPosition(ads, k - 1, x) ==>
      && (x in ReorderingsUpTo(ads, m, k) <==> x in ReorderingsUpTo(ads, m, k - 1))
      && (x in ReorderingsUpTo(ads, m, k - 1) ==> ReorderingsUpTo(ads, m, k)[x] == ReorderingsUpTo(ads, m, k - 1)[x])
  {
    var c := ads[k - 1];
    assert c.Valid();
    if MovesPosition(ads, k - 1, x) {
      var i :| 0 <= i < |c.reorderings.keys| && c.reorderings.keys[i] == x - Offset(ads, k - 1);
      ReorderingOwn(ads, m, k - 1, i);
      assert LastMove(ads, m, k, k - 1, i, x, ReorderingsUpTo(ads, m, k)[x]);
    } else {
      ReorderingKept(ads, m, k, x);
    }
  }

  /** A last move among the first k - 1 children stays the last one when child k - 1 does not move x. */
  lemma LastMoveExtend(ads: seq<Child>, m: map<int, int>, k: nat, j: nat, i: nat, x: int, v: int)
    requires 0 < k <= |ads| && ChildrenValid(ads) && j < k - 1
    requires LastMove(ads, m, k - 1, j, i, x, v) && !MovesPosition(ads, k - 1, x)
    ensures LastMove(ads, m, k, j, i, x, v)
  {
  }

  /**
   * A position is in getReorderings exactly when some Reorderable child
   * moved it, and its value is the last such child's move with both ends
   * shifted.
   */
  lemma {:induction false} ReorderingsAt(ads: seq<Child>, m: map<int, int>, k: nat, x: int)
    requires k <= |ads| && ChildrenValid(ads)
    ensures x in ReorderingsUpTo(ads, m, k) <==> exists j :: 0 <= j < k && MovesPosition(ads, j, x)
    ensures x in ReorderingsUpTo(ads, m, k) ==>
      exists j, i :: 0 <= j < k && LastMove(ads, m, k, j, i, x, ReorderingsUpTo(ads, m, k)[x])
  {
    if k > 0 {
      var prev, next := ReorderingsUpTo(ads, m, k - 1), ReorderingsUpTo(ads, m, k);
      ReorderingsAt(ads, m, k - 1, x);
      ReorderingsStep(ads, m, k, x);
      if MovesPosition(ads, k - 1, x) {
        var j, i :| j == k - 1 && LastMove(ads, m, k, j, i, x, next[x]);
        assert 0 <= j < k && LastMove(ads, m, k, j, i, x, next[x]);
      } else {
        if x in next {
          var j, i :| 0 <= j < k - 1 && LastMove(ads, m, k - 1, j, i, x, prev[x]);
          LastMoveExtend(ads, m, k, j, i, x, prev[x]);
          assert 0 <= j < k && LastMove(ads, m, k, j, i, x, next[x]);
        }
        if exists j :: 0 <= j < k && MovesPosition(ads, j, x) {
          var j :| 0 <= j < k && MovesPosition(ads, j, x);
          assert 0 <= j < k - 1 && MovesPosition(ads, j, x);
        }
      }
    }
  }

  lemma NothingAdded<W>(m: map<int, W>)
    ensures m + map[] == m
  {
  }

  /** The inner loop of getInsertions and getDeletions: every key of `inner`, moved by `offset`, put as true. */
  method PutFlags(list: SparseArray<bool>, inner: SparseArray<bool>, offset: int) returns (r: SparseArray<bool>)
    requires list.Valid() && inner.Valid()
    ensures r.Valid() && r.Contents() == list.Contents() + ShiftedFlags(inner, inner.Size(), offset)
  {
    r := list;
    for i := 0 to inner.Size()
      invariant r.Valid() && r.Contents() == list.Contents() + ShiftedFlags(inner, i, offset)
    {
      var index := inner.KeyAt(i);
      PutContents(r, index + offset, true);
      MergeUpdate(list.Contents(), ShiftedFlags(inner, i, offset), index + offset, true);
      r := r.Put(index + offset, true);
    }
  }

  /** The inner loop of getReorderings: every move of `inner`, its new index moved by `offset`, its old one by `oldOffset`. */
  method PutMoves(transitions: SparseArray<int>, inner: SparseArray<int>, offset: int, oldOffset: int) returns (r: SparseArray<int>)
    requires transitions.Valid() && inner.Valid()
    ensures r.Valid() && r.Contents() == transitions.Contents() + ShiftedMoves(inner, inner.Size(), offset, oldOffset)
  {
    r := transitions;
    for i := 0 to inner.Size()
      invariant r.Valid() && r.Contents() == transitions.Contents() + ShiftedMoves(inner, i, offset, oldOffset)
    {
      var index := inner.KeyAt(i);
      var oldIndex := inner.ValueAt(i);
      PutContents(r, index + offset, oldIndex + oldOffset);
      MergeUpdate(transitions.Contents(), ShiftedMoves(inner, i, offset, oldOffset), index + offset, oldIndex + oldOffset);
      r := r.Put(index + offset, oldIndex + oldOffset);
    }
  }

  // ----------------------------------------------------------------- adapter

  class RecursiveAdapter {
    var adapters: seq<Child>
    var viewTypes: set<int>
    /** Item counts recorded by onChanged, by adapter identity. */
    var countAtLastUpdate: map<int, int>

    /** viewTypes is the union of the children's view types. */
    predicate Valid()
      reads this
    {
      viewTypes == ViewTypesUpTo(adapters, |adapters|)
    }

    constructor (adapters: seq<Child>)
      ensures this.adapters == adapters && countAtLastUpdate == map[] && Valid()
    {
      this.adapters := adapters;
      countAtLastUpdate := map[];
      new;
      SetViewTypes();
    }

    /** setViewTypes: the view types become exactly those some child has. */
    method SetViewTypes()
      modifies this
      ensures adapters == old(adapters) && countAtLastUpdate == old(countAtLastUpdate)
      ensures Valid()
      ensures forall t :: t in viewTypes <==> exists i :: 0 <= i < |adapters| && t in adapters[i].viewTypes
    {
      viewTypes := {};
      for i := 0 to |adapters|
        invariant adapters == old(adapters) && countAtLastUpdate == old(countAtLastUpdate)
        invariant viewTypes == ViewTypesUpTo(adapters, i)
      {
        viewTypes := viewTypes + adapters[i].viewTypes;
      }
      forall t ensures t in viewTypes <==> exists i :: 0 <= i < |adapters| && t in adapters[i].viewTypes {
        ViewTypesMembers(adapters, |adapters|, t);
      }
    }

    /** addAdapter: the child goes last. */
    method AddAdapter(adapter: Child)
      modifies this
      ensures adapters == old(adapters) + [adapter] && countAtLastUpdate == old(countAtLastUpdate) && Valid()
    {
      adapters := adapters + [adapter];
      SetViewTypes();
    }

    /** addAdapter(adapter, index): the child goes at `index`; an index outside 0..size throws and changes nothing. */
    method AddAdapterAt(adapter: Child, index: int) returns (ok: bool)
      requires Valid()
      modifies this
      ensures ok <==> 0 <= index <= |old(adapters)|
      ensures ok ==> adapters == old(adapters)[..index] + [adapter] + old(adapters)[index..]
      ensures !ok ==> adapters == old(adapters) && viewTypes == old(viewTypes)
      ensures countAtLastUpdate == old(countAtLastUpdate) && Valid()
    {
      if index < 0 || index > |adapters| {
        return false;
      }
      adapters := adapters[..index] + [adapter] + adapters[index..];
      SetViewTypes();
      ok := true;
    }

    /** removeAdapter: the first occurrence of the child goes, if there is one. */
    method RemoveAdapter(adapter: Child)
      modifies this
      ensures var k := FirstIndex(old(adapters), adapter.id);
        adapters == if k < |old(adapters)| then old(adapters)[..k] + old(adapters)[k + 1..] else old(adapters)
      ensures countAtLastUpdate == old(countAtLastUpdate) && Valid()
    {
      var k := 0;
      while k < |adapters| && adapters[k].id != adapter.id
        invariant 0 <= k <= |adapters|
        invariant forall j :: 0 <= j < k ==> adapters[j].id != adapter.id
      {
        k := k + 1;
      }
      if k < |adapters| {
        adapters := adapters[..k] + adapters[k + 1..];
      }
      SetViewTypes();
    }

    /** getItemCount: the children's counts added up. */
    method GetItemCount() returns (count: int)
      ensures count == Total(adapters)
    {
      count := 0;
      for k := 0 to |adapters|
        invariant count == Before(adapters, k)
      {
        count := count + adapters[k].count;
      }
    }

    /** getSuperIndex: `position` plus the counts of the children before the first occurrence of `src`. */
    method GetSuperIndex(src: Child, position: int) returns (count: int)
      ensures count == position + Before(adapters, FirstIndex(adapters, src.id))
    {
      count := position;
      var k := 0;
      while k < |adapters|
        invariant 0 <= k <= |adapters|
        invariant count == position + Before(adapters, k)
        invariant forall j :: 0 <= j < k ==> adapters[j].id != src.id
      {
        if src.id != adapters[k].id {
          count := count + adapters[k].count;
        } else {
          break;
        }
        k := k + 1;
      }
    }

    /** getSuperIndexAtLastUpdate: the same walk, adding the recorded counts (0 if never recorded). */
    method GetSuperIndexAtLastUpdate(src: Child, position: int) returns (count: int)
      ensures count == position + RecordedBefore(adapters, countAtLastUpdate, FirstIndex(adapters, src.id))
    {
      count := position;
      var k := 0;
      while k < |adapters|
        invariant 0 <= k <= |adapters|
        invariant count == position + RecordedBefore(adapters, countAtLastUpdate, k)
        invariant forall j :: 0 <= j < k ==> adapters[j].id != src.id
      {
        if src.id != adapters[k].id {
          count := count + RecordedCount(countAtLastUpdate, adapters[k].id);
        } else {
          break;
        }
        k := k + 1;
      }
    }

    /**
     * getInternalAdapter: the child the position falls in and the position
     * inside it; nothing (the exception) once the children are used up.
     */
    method GetInternalAdapter(position: int) returns (r: Option<Location>)
      ensures r.None? <==> adapters == [] || position >= Total(adapters)
      ensures r.Some? ==> Locates(adapters, position, r.value.child, r.value.position)
    {
      var rest := position;
      for k := 0 to |adapters|
        invariant rest == position - Before(adapters, k)
        invariant forall j :: 0 < j <= k ==> Before(adapters, j) <= position
      {
        if rest >= adapters[k].count {
          rest := rest - adapters[k].count;
        } else {
          BeforeMonotone(adapters, k + 1, |adapters|);
          return Some(Location(k, rest));
        }
      }
      return None;
    }

    /**
     * onChanged: each child in turn is told its data changed, which runs the
     * child's own onChanged, and its count afterwards is recorded under its
     * identity. `refreshed` holds the children as they stand after their own
     * refresh; the refresh keeps each child's identity.
     */
    method OnChanged(refreshed: seq<Child>)
      requires |refreshed| == |adapters|
      requires forall k :: 0 <= k < |adapters| ==> refreshed[k].id == adapters[k].id
      modifies this
      ensures adapters == refreshed && viewTypes == old(viewTypes)
      ensures countAtLastUpdate == old(countAtLastUpdate) + Snapshot(refreshed, |refreshed|)
      ensures Coherent(refreshed) ==> forall k :: 0 <= k <= |adapters| ==>
        RecordedBefore(adapters, countAtLastUpdate, k) == Before(adapters, k)
      ensures old(Valid()) && (forall k :: 0 <= k < |refreshed| ==> refreshed[k].viewTypes == old(adapters)[k].viewTypes) ==> Valid()
    {
      ghost var previous := adapters;
      for k := 0 to |refreshed|
        invariant |adapters| == |refreshed| && viewTypes == old(viewTypes)
        invariant forall i :: 0 <= i < |adapters| ==> adapters[i] == if i < k then refreshed[i] else previous[i]
        invariant countAtLastUpdate == old(countAtLastUpdate) + Snapshot(refreshed, k)
      {
        adapters := adapters[k := refreshed[k]];
        MergeUpdate(old(countAtLastUpdate), Snapshot(refreshed, k), refreshed[k].id, refreshed[k].count);
        countAtLastUpdate := countAtLastUpdate[adapters[k].id := adapters[k].count];
      }
      assert adapters == refreshed;
      if Coherent(adapters) {
        forall k | 0 <= k <= |adapters|
          ensures RecordedBefore(adapters, countAtLastUpdate, k) == Before(adapters, k)
        {
          SnapshotOffsets(adapters, old(countAtLastUpdate), k);
        }
      }
      if forall k :: 0 <= k < |refreshed| ==> refreshed[k].viewTypes == previous[k].viewTypes {
        ViewTypesAgree(previous, refreshed, |refreshed|);
      }
    }

    /** getInsertions: the Reorderable children's insertions, each moved by the child's current offset. */
    method GetInsertions() returns (list: SparseArray<bool>)
      requires ChildrenValid(adapters)
      ensures list.Valid() && list.Contents() == InsertionsUpTo(adapters, |adapters|)
    {
      var ads, m := adapters, countAtLastUpdate;
      list := Empty();
      for k := 0 to |ads|
        invariant list.Valid() && list.Contents() == InsertionsUpTo(ads, k)
      {
        var adapter := ads[k];
        if adapter.reorderable {
          var offset := GetSuperIndex(adapter, 0);
          list := PutFlags(list, adapter.insertions, offset);
        } else {
          NothingAdded(InsertionsUpTo(ads, k));
        }
      }
    }

    /** getDeletions: the Reorderable children's deletions, each moved by the child's offset at the last update. */
    method GetDeletions() returns (list: SparseArray<bool>)
      requires ChildrenValid(adapters)
      ensures list.Valid() && list.Contents() == DeletionsUpTo(adapters, countAtLastUpdate, |adapters|)
    {
      var ads, m := adapters, countAtLastUpdate;
      list := Empty();
      for k := 0 to |ads|
        invariant list.Valid() && list.Contents() == DeletionsUpTo(ads, m, k)
      {
        var adapter := ads[k];
        if adapter.reorderable {
          var offset := GetSuperIndexAtLastUpdate(adapter, 0);
          assert offset == RecordedOffset(ads, m, k);
          list := PutFlags(list, adapter.deletions, offset);
        } else {
          NothingAdded(DeletionsUpTo(ads, m, k));
        }
      }
    }

    /** getReorderings: each move's new index moved by the current offset, its old index by the last update's. */
    method GetReorderings() returns (transitions: SparseArray<int>)
      requires ChildrenValid(adapters)
      ensures transitions.Valid() && transitions.Contents() == ReorderingsUpTo(adapters, countAtLastUpdate, |adapters|)
    {
      var ads, m := adapters, countAtLastUpdate;
      transitions := Empty();
      for k := 0 to |ads|
        invariant transitions.Valid() && transitions.Contents() == ReorderingsUpTo(ads, m, k)
      {
        var adapter := ads[k];
        if adapter.reorderable {
          var offset := GetSuperIndex(adapter, 0);
          var oldOffset := GetSuperIndexAtLastUpdate(adapter, 0);
          transitions := PutMoves(transitions, adapter.reorderings, offset, oldOffset);
        } else {
          NothingAdded(ReorderingsUpTo(ads, m, k));
        }
      }
    }
  }
}
