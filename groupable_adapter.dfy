/**
 * GroupableAdapper's index arithmetic. The visible items are laid out in
 * groups, and a header row is inserted before each group, so the flat list
 * the view sees interleaves headers and items. `categoryPositions` (cp)
 * holds, for each group, the item index that opens it. Header g then sits
 * at flat position g + cp[g]. Item j sits at j plus the number of headers
 * before it. An index < 0 names a header: -(g + 1) is header g.
 */
module GroupableAdapters {
  import opened Wrappers
  import opened SparseArrays
  import opened GroupComparators

  // --------------------------------------------------------------- group starts

  /** Item i opens a group: it is the first item, or its group differs from the previous item's. */
  predicate OpensGroup<M, G>(list: seq<M>, comparator: GroupComparator<M, G>, i: int)
    requires 0 <= i < |list|
  {
    i == 0 || comparator.GroupOrder()(comparator.getGroup(list[i - 1]), comparator.getGroup(list[i])) != 0
  }

  /** The indices below k of items that open a group, in ascending order. */
  function Starts<M, G>(list: seq<M>, comparator: GroupComparator<M, G>, k: nat): seq<int>
    requires k <= |list|
  {
    if k == 0 then []
    else Starts(list, comparator, k - 1) + (if OpensGroup(list, comparator, k - 1) then [k - 1] else [])
  }

  /** The category positions of a list: the index of every item that opens a group. */
  function CategoryPositions<M, G>(list: seq<M>, comparator: GroupComparator<M, G>): seq<int> {
    Starts(list, comparator, |list|)
  }

  /** Strictly ascending, and the first group (if any) opens at item 0. */
  predicate Anchored(cp: seq<int>) {
    StrictlyAscending(cp) && (cp != [] ==> cp[0] == 0)
  }

  /** cp describes the groups of n items: anchored, empty exactly when there are no items, all below n. */
  predicate GroupStarts(cp: seq<int>, n: int) {
    Anchored(cp) && (cp == [] <==> n == 0) && (cp != [] ==> cp[|cp| - 1] < n)
  }

  /** What the prefix of k items contributes to the category positions. */
  lemma {:induction false} StartsFacts<M, G>(list: seq<M>, comparator: GroupComparator<M, G>, k: nat)
    requires k <= |list|
    ensures var s := Starts(list, comparator, k);
      StrictlyAscending(s) && (k == 0 <==> s == []) && (s != [] ==> s[0] == 0) &&
      forall x :: x in s <==> 0 <= x < k && OpensGroup(list, comparator, x)
  {
    if k > 0 {
      StartsFacts(list, comparator, k - 1);
      var s' := Starts(list, comparator, k - 1);
      var s := Starts(list, comparator, k);
      assert s' != [] ==> s'[|s'| - 1] in s';
      assert forall i :: 0 <= i < |s'| ==> s[i] == s'[i];
    }
  }

  /** The category positions of a list describe its groups. */
  lemma CategoryPositionsValid<M, G>(list: seq<M>, comparator: GroupComparator<M, G>)
    ensures GroupStarts(CategoryPositions(list, comparator), |list|)
    ensures forall x :: x in CategoryPositions(list, comparator) <==> 0 <= x < |list| && OpensGroup(list, comparator, x)
  {
    StartsFacts(list, comparator, |list|);
    var cp := CategoryPositions(list, comparator);
    if cp != [] {
      assert cp[|cp| - 1] in cp;
    }
  }

  /**
   * generateCategoryPositions: 0 for a non-empty list, then every i > 0
   * whose item's group compares unequal to the previous item's.
   */
  method GenerateCategoryPositions<M, G>(list: seq<M>, comparator: GroupComparator<M, G>) returns (positions: seq<int>)
    ensures positions == CategoryPositions(list, comparator)
    ensures GroupStarts(positions, |list|)
    ensures forall x :: x in positions <==> 0 <= x < |list| && OpensGroup(list, comparator, x)
  {
    positions := [];
    if |list| > 0 {
      positions := [0];
      for i := 1 to |list|
        invariant positions == Starts(list, comparator, i)
      {
        var lhs := comparator.getGroup(list[i - 1]);
        var rhs := comparator.getGroup(list[i]);
        if comparator.GroupOrder()(lhs, rhs) != 0 {
          positions := positions + [i];
        }
      }
    }
    CategoryPositionsValid(list, comparator);
  }

  // ------------------------------------------------------------ flat positions

  /** The length of the longest prefix of s whose entries are all <= x. */
  function Leading(s: seq<int>, x: int): (c: nat)
    ensures c <= |s|
    ensures forall i :: 0 <= i < c ==> s[i] <= x
    ensures c < |s| ==> x < s[c]
  {
    if s == [] || x < s[0] then 0 else 1 + Leading(s[1..], x)
  }

  /** A larger bound never shortens the prefix. */
  lemma {:induction false} LeadingMonotone(s: seq<int>, x: int, y: int)
    requires x <= y
    ensures Leading(s, x) <= Leading(s, y)
  {
    if s != [] && x >= s[0] {
      LeadingMonotone(s[1..], x, y);
    }
  }

  /** The flat position of item j: j plus one for every leading group start <= j. */
  function ItemPosition(j: int, cp: seq<int>): int {
    j + Leading(cp, j)
  }

  /** categoryIndextoSuperPosition: header k sits at k + cp[k]; with no groups the index is returned. */
  function CategoryIndexToSuperPosition(k: int, cp: seq<int>): int
    requires cp == [] || 0 <= k < |cp|
  {
    if cp == [] then k else k + cp[k]
  }

  function HeaderAt(cp: seq<int>, g: int): int {
    if 0 <= g < |cp| then CategoryIndexToSuperPosition(g, cp) else 0
  }

  /** The flat positions of the headers, in group order. */
  function HeaderPositions(cp: seq<int>): (h: seq<int>)
    ensures |h| == |cp|
  {
    seq(|cp|, g => HeaderAt(cp, g))
  }

  /**
   * The index a flat position decodes to: with no groups the position
   * itself; otherwise, if c headers lie at or before p, header c - 1
   * (as -c) when p is that header, and else item p - c.
   */
  function IndexAt(p: int, cp: seq<int>): int {
    if cp == [] then p
    else
      var c: int := Leading(HeaderPositions(cp), p);
      if c == 0 then p - |cp|
      else if p == CategoryIndexToSuperPosition(c - 1, cp) then -c
      else p - c
  }

  /** The loop of listIndextoSuperPosition: counts the group starts up to the first one beyond `index`. */
  method ItemToSuperPosition(index: int, cp: seq<int>) returns (position: int)
    ensures position == ItemPosition(index, cp)
    ensures Anchored(cp) && index >= 0 ==> IndexAt(position, cp) == index
  {
    position := index;
    var i := 0;
    while i < |cp|
      invariant 0 <= i <= |cp|
      invariant position == index + i
      invariant forall t :: 0 <= t < i ==> cp[t] <= index
    {
      if cp[i] <= index {
        position := position + 1;
      } else {
        break;
      }
      i := i + 1;
    }
    if Anchored(cp) && index >= 0 {
      ItemRoundTrip(index, cp);
    }
  }

  /** An item of group g (between cp[g] and the next start) sits g + 1 places further on, and decodes back. */
  lemma ItemInGroup(cp: seq<int>, g: int, j: int)
    requires Anchored(cp) && 0 <= g < |cp| && cp[g] <= j
    requires g + 1 < |cp| ==> j < cp[g + 1]
    ensures ItemPosition(j, cp) == j + g + 1
    ensures IndexAt(j + g + 1, cp) == j
  {
    forall t | 0 <= t < g ensures cp[t] <= j {
      AscendingPairs(cp, t, g);
    }
    assert Leading(cp, j) == g + 1;
    ItemRoundTrip(j, cp);
  }

  /** Decoding the flat position of item j gives back j. */
  lemma ItemRoundTrip(j: int, cp: seq<int>)
    requires Anchored(cp) && j >= 0
    ensures IndexAt(ItemPosition(j, cp), cp) == j
  {
    if cp != [] {
      var c := Leading(cp, j);
      var p := j + c;
      var h := HeaderPositions(cp);
      assert c >= 1;
      assert forall i :: 0 <= i < c ==> h[i] == i + cp[i];
      assert c < |cp| ==> h[c] == c + cp[c];
      assert Leading(h, p) == c;
    }
  }

  /** Decoding the flat position of header k gives back -(k + 1). */
  lemma HeaderRoundTrip(k: int, cp: seq<int>)
    requires Anchored(cp) && 0 <= k < |cp|
    ensures IndexAt(CategoryIndexToSuperPosition(k, cp), cp) == -(k + 1)
  {
    var p := k + cp[k];
    var h := HeaderPositions(cp);
    forall i | 0 <= i < k ensures h[i] <= p {
      AscendingPairs(cp, i, k);
    }
    assert h[k] == p;
    assert k + 1 < |cp| ==> h[k + 1] == k + 1 + cp[k + 1];
    assert Leading(h, p) == k + 1;
  }

  /** Every position >= 0 decodes to an item that sits there or to a header that sits there. */
  lemma PositionDecoded(p: int, cp: seq<int>)
    requires Anchored(cp) && p >= 0
    ensures var r := IndexAt(p, cp);
      (r >= 0 ==> ItemPosition(r, cp) == p) &&
      (r < 0 ==> 0 <= -r - 1 < |cp| && CategoryIndexToSuperPosition(-r - 1, cp) == p)
  {
    if cp != [] {
      var h := HeaderPositions(cp);
      var c := Leading(h, p);
      assert h[0] == 0;
      var g := c - 1;
      assert h[g] == g + cp[g];
      if p != h[g] {
        var r := p - c;
        if g > 0 {
          AscendingPairs(cp, 0, g);
        }
        forall t | 0 <= t < g ensures cp[t] <= r {
          AscendingPairs(cp, t, g);
        }
        assert c < |cp| ==> h[c] == c + cp[c];
        assert Leading(cp, r) == c;
      }
    }
  }

  /** The flat positions below n + |cp| decode to exactly the n items and the |cp| headers. */
  lemma PositionsCovered(p: int, cp: seq<int>, n: int)
    requires GroupStarts(cp, n) && 0 <= p < n + |cp|
    ensures var r := IndexAt(p, cp);
      (r >= 0 ==> r < n && ItemPosition(r, cp) == p) &&
      (r < 0 ==> 0 <= -r - 1 < |cp| && CategoryIndexToSuperPosition(-r - 1, cp) == p)
  {
    PositionDecoded(p, cp);
    forall t | 0 <= t < |cp| ensures cp[t] < n {
      if t < |cp| - 1 {
        AscendingPairs(cp, t, |cp| - 1);
      }
    }
  }

  /** Items and headers land inside the flat list, and never on the same position. */
  lemma LayoutInRange(cp: seq<int>, n: int, j: int, k: int)
    requires GroupStarts(cp, n) && 0 <= j < n && 0 <= k < |cp|
    ensures 0 <= ItemPosition(j, cp) < n + |cp|
    ensures 0 <= CategoryIndexToSuperPosition(k, cp) < n + |cp|
    ensures ItemPosition(j, cp) != CategoryIndexToSuperPosition(k, cp)
  {
    if k < |cp| - 1 {
      AscendingPairs(cp, k, |cp| - 1);
    }
    if k > 0 {
      AscendingPairs(cp, 0, k);
    }
    ItemRoundTrip(j, cp);
    HeaderRoundTrip(k, cp);
  }

  /** Later items sit at later flat positions. */
  lemma ItemPositionMonotone(i: int, j: int, cp: seq<int>)
    requires i < j
    ensures ItemPosition(i, cp) < ItemPosition(j, cp)
  {
    LeadingMonotone(cp, i, j);
  }

  /**
   * superPositionToIndex: walks group by group, checking the header
   * position and then each item of the group, and after the last full
   * group decides between the last header and an item of the last group.
   */
  method SuperPositionToIndex(position: int, cp: seq<int>) returns (index: int)
    requires Anchored(cp)
    ensures index == IndexAt(position, cp)
  {
    if cp == [] {
      return position;
    }
    var i := 0;
    while i < |cp| - 1
      invariant 0 <= i <= |cp| - 1
      invariant position < 0 || CategoryIndexToSuperPosition(i, cp) <= position
    {
      if cp[i] + i == position {
        HeaderRoundTrip(i, cp);
        return -(i + 1);
      }
      var j := cp[i];
      while j < cp[i + 1]
        invariant cp[i] <= j <= cp[i + 1]
        invariant position < 0 || j + i + 1 <= position
      {
        if j + i + 1 == position {
          ItemInGroup(cp, i, j);
          return j;
        }
        j := j + 1;
      }
      i := i + 1;
    }
    var m := |cp|;
    if position == cp[m - 1] + m - 1 {
      HeaderRoundTrip(m - 1, cp);
      index := -m;
    } else {
      index := position - m;
      if position >= 0 {
        ItemInGroup(cp, m - 1, index);
      } else {
        assert HeaderPositions(cp)[0] == 0;
      }
    }
  }

  /** The internal adapter a position belongs to, with the index inside it. */
  datatype Delegate = Header(index: int) | Item(index: int)

  /**
   * getDelegate: a negative index names header -index - 1 of the category
   * adapter, any other index item `index` of the list adapter.
   */
  method GetDelegate(position: int, cp: seq<int>) returns (d: Delegate)
    requires Anchored(cp)
    ensures position >= 0 && d.Header? ==> 0 <= d.index < |cp| && CategoryIndexToSuperPosition(d.index, cp) == position
    ensures position >= 0 && d.Item? ==> d.index >= 0 && ItemPosition(d.index, cp) == position
    ensures position < 0 ==> d == Header(if cp == [] then -position - 1 else |cp| - 1 - position)
  {
    var index := SuperPositionToIndex(position, cp);
    if position >= 0 {
      PositionDecoded(position, cp);
    } else if cp != [] {
      assert HeaderPositions(cp)[0] == 0;
    }
    if index < 0 {
      d := Header(-index - 1);
    } else {
      d := Item(index);
    }
  }

  // --------------------------------------------------------- remapping changes

  /** Where a clean* method sends an index: to an item's or to a header's flat position under `cp`. */
  datatype Translation = ToItem(cp: seq<int>) | ToHeader(cp: seq<int>)
  {
    /** The index can be translated: any item index; a header index only inside cp, unless cp is empty. */
    predicate Accepts(x: int) {
      ToItem? || cp == [] || 0 <= x < |cp|
    }

    function Apply(x: int): int
      requires Accepts(x)
    {
      if ToItem? then ItemPosition(x, cp) else CategoryIndexToSuperPosition(x, cp)
    }
  }

  predicate AcceptsAll(t: Translation, s: seq<int>) {
    forall i :: 0 <= i < |s| ==> t.Accepts(s[i])
  }

  /** With ascending cp a translation keeps the order of the indices. */
  lemma TranslationMonotone(t: Translation, x: int, y: int)
    requires StrictlyAscending(t.cp) && t.Accepts(x) && t.Accepts(y) && x < y
    ensures t.Apply(x) < t.Apply(y)
  {
    if t.ToItem? {
      ItemPositionMonotone(x, y, t.cp);
    } else if t.cp != [] {
      AscendingPairs(t.cp, x, y);
    }
  }

  method Translate(t: Translation, x: int) returns (y: int)
    requires t.Accepts(x)
    ensures y == t.Apply(x)
  {
    if t.ToItem? {
      y := ItemToSuperPosition(x, t.cp);
    } else {
      y := CategoryIndexToSuperPosition(x, t.cp);
    }
  }

  /** `clean` holds the entries of `entries` in the same order, each key moved by `t`. */
  predicate Relabelled<V>(clean: SparseArray<V>, entries: SparseArray<V>, t: Translation)
    requires AcceptsAll(t, entries.keys)
  {
    clean.Valid() && |clean.keys| == |entries.keys| &&
    forall i :: 0 <= i < |entries.keys| ==> clean.keys[i] == t.Apply(entries.keys[i])
  }

  /** Under a relabelling, the value stored at a translated key is what the original key held. */
  lemma RelabelledFind<V>(clean: SparseArray<V>, entries: SparseArray<V>, t: Translation, i: int)
    requires entries.Valid() && AcceptsAll(t, entries.keys) && Relabelled(clean, entries, t)
    requires 0 <= i < |entries.keys|
    ensures clean.Find(t.Apply(entries.keys[i])) == Some(clean.values[i])
    ensures forall x :: x in clean.keys <==> exists k :: 0 <= k < |entries.keys| && x == t.Apply(entries.keys[k])
  {
    assert clean.keys[i] == t.Apply(entries.keys[i]);
    forall x ensures x in clean.keys <==> exists k :: 0 <= k < |entries.keys| && x == t.Apply(entries.keys[k]) {
      if x in clean.keys {
        var k :| 0 <= k < |clean.keys| && clean.keys[k] == x;
        assert x == t.Apply(entries.keys[k]);
      }
    }
  }

  /** One turn of a relabelling loop: the next entry goes in under its translated key, after all earlier ones. */
  lemma RelabelStep<V, W>(clean: SparseArray<W>, entries: SparseArray<V>, t: Translation, i: nat, w: W)
    requires entries.Valid() && StrictlyAscending(t.cp) && AcceptsAll(t, entries.keys) && i < |entries.keys|
    requires clean.Valid() && |clean.keys| == i
    requires forall k :: 0 <= k < i ==> clean.keys[k] == t.Apply(entries.keys[k])
    ensures var next := clean.Put(t.Apply(entries.keys[i]), w);
      && next.Valid() && |next.keys| == i + 1 && |next.values| == |clean.values| + 1
      && (forall k :: 0 <= k <= i ==> next.keys[k] == t.Apply(entries.keys[k]))
      && (forall k :: 0 <= k < |clean.values| ==> next.values[k] == clean.values[k])
      && next.values[|clean.values|] == w && next.values == clean.values + [w]
  {
    var position := t.Apply(entries.keys[i]);
    forall k | 0 <= k < i ensures clean.keys[k] < position {
      AscendingPairs(entries.keys, k, i);
      TranslationMonotone(t, entries.keys[k], entries.keys[i]);
    }
    PutAbove(clean, position, w);
  }

  /** The loop of the boolean clean* methods: each entry put again under its translated key. */
  method RelabelFlags(entries: SparseArray<bool>, t: Translation) returns (clean: SparseArray<bool>)
    requires entries.Valid() && StrictlyAscending(t.cp) && AcceptsAll(t, entries.keys)
    ensures Relabelled(clean, entries, t) && clean.values == entries.values
  {
    clean := Empty();
    for i := 0 to entries.Size()
      invariant clean.Valid() && |clean.keys| == i
      invariant forall k :: 0 <= k < i ==> clean.keys[k] == t.Apply(entries.keys[k])
      invariant clean.values == entries.values[..i]
    {
      var key := entries.KeyAt(i);
      var value := entries.ValueAt(i);
      var position := Translate(t, key);
      RelabelStep(clean, entries, t, i, value);
      assert entries.values[..i + 1] == entries.values[..i] + [value];
      clean := clean.Put(position, value);
    }
  }

  /** The loop of the reordering clean* methods: keys moved by `keys`, values by `values`. */
  method RelabelMoves(entries: SparseArray<int>, keys: Translation, values: Translation) returns (clean: SparseArray<int>)
    requires entries.Valid() && StrictlyAscending(keys.cp) && AcceptsAll(keys, entries.keys) && AcceptsAll(values, entries.values)
    ensures Relabelled(clean, entries, keys)
    ensures forall i :: 0 <= i < |entries.values| ==> clean.values[i] == values.Apply(entries.values[i])
  {
    clean := Empty();
    for i := 0 to entries.Size()
      invariant clean.Valid() && |clean.keys| == i
      invariant forall k :: 0 <= k < i ==> clean.keys[k] == keys.Apply(entries.keys[k])
      invariant forall k :: 0 <= k < i ==> clean.values[k] == values.Apply(entries.values[k])
    {
      var key := entries.KeyAt(i);
      var value := entries.ValueAt(i);
      var position := Translate(keys, key);
      var target := Translate(values, value);
      RelabelStep(clean, entries, keys, i, target);
      clean := clean.Put(position, target);
    }
  }

  /** cleanInsertions: inserted item indices moved to their flat positions in the next layout. */
  method CleanInsertions(entries: SparseArray<bool>, nextCp: seq<int>) returns (clean: SparseArray<bool>)
    requires entries.Valid() && StrictlyAscending(nextCp)
    ensures Relabelled(clean, entries, ToItem(nextCp)) && clean.values == entries.values
  {
    clean := RelabelFlags(entries, ToItem(nextCp));
  }

  /** cleanDeletions: deleted item indices moved to their flat positions in the current layout. */
  method CleanDeletions(entries: SparseArray<bool>, cp: seq<int>) returns (clean: SparseArray<bool>)
    requires entries.Valid() && StrictlyAscending(cp)
    ensures Relabelled(clean, entries, ToItem(cp)) && clean.values == entries.values
  {
    clean := RelabelFlags(entries, ToItem(cp));
  }

  /** cleanReorderings: a move's new index under the next layout, its old index under the current one. */
  method CleanReorderings(reorderings: SparseArray<int>, cp: seq<int>, nextCp: seq<int>) returns (clean: SparseArray<int>)
    requires reorderings.Valid() && StrictlyAscending(nextCp)
    ensures Relabelled(clean, reorderings, ToItem(nextCp))
    ensures forall i :: 0 <= i < |reorderings.values| ==> clean.values[i] == ItemPosition(reorderings.values[i], cp)
  {
    clean := RelabelMoves(reorderings, ToItem(nextCp), ToItem(cp));
  }

  /** cleanCategoryInsertions: inserted header indices moved to their flat positions in the next layout. */
  method CleanCategoryInsertions(entries: SparseArray<bool>, nextCp: seq<int>) returns (clean: SparseArray<bool>)
    requires entries.Valid() && StrictlyAscending(nextCp) && AcceptsAll(ToHeader(nextCp), entries.keys)
    ensures Relabelled(clean, entries, ToHeader(nextCp)) && clean.values == entries.values
  {
    clean := RelabelFlags(entries, ToHeader(nextCp));
  }

  /** cleanCategoryDeletions: deleted header indices moved to their flat positions in the current layout. */
  method CleanCategoryDeletions(entries: SparseArray<bool>, cp: seq<int>) returns (clean: SparseArray<bool>)
    requires entries.Valid() && StrictlyAscending(cp) && AcceptsAll(ToHeader(cp), entries.keys)
    ensures Relabelled(clean, entries, ToHeader(cp)) && clean.values == entries.values
  {
    clean := RelabelFlags(entries, ToHeader(cp));
  }

  /** cleanCategoryReorderings: a header move's new index under the next layout, its old index under the current one. */
  method CleanCategoryReorderings(reorderings: SparseArray<int>, cp: seq<int>, nextCp: seq<int>) returns (clean: SparseArray<int>)
    requires reorderings.Valid() && StrictlyAscending(nextCp)
    requires AcceptsAll(ToHeader(nextCp), reorderings.keys) && AcceptsAll(ToHeader(cp), reorderings.values)
    ensures Relabelled(clean, reorderings, ToHeader(nextCp))
    ensures forall i :: 0 <= i < |reorderings.values| ==>
      clean.values[i] == CategoryIndexToSuperPosition(reorderings.values[i], cp)
  {
    clean := RelabelMoves(reorderings, ToHeader(nextCp), ToHeader(cp));
  }

  // ------------------------------------------------------------------ adapter

  /** The state GroupableAdapper keeps: the visible items and their category positions. */
  class GroupableAdapter<M, G> {
    const comparator: GroupComparator<M, G>
    /** The visible list of the internal list adapter. */
    var visible: seq<M>
    var categoryPositions: seq<int>

    /** The category positions are those of the visible list. */
    predicate Valid()
      reads this
    {
      categoryPositions == CategoryPositions(visible, comparator)
    }

    constructor (list: seq<M>, comparator: GroupComparator<M, G>)
      ensures this.comparator == comparator && visible == list && Valid()
    {
      this.comparator := comparator;
      visible := list;
      new;
      categoryPositions := GenerateCategoryPositions(list, comparator);
    }

    /** onChanged: the internal list adapter shows `nextVisible`, and the groups are worked out again. */
    method OnChanged(nextVisible: seq<M>)
      modifies this
      ensures visible == nextVisible && Valid()
    {
      visible := nextVisible;
      categoryPositions := GenerateCategoryPositions(nextVisible, comparator);
    }

    /** getItemCount: one row per visible item and per group header; each row decodes to an item or a header. */
    method GetItemCount() returns (n: int)
      requires Valid()
      ensures n == |visible| + |categoryPositions|
      ensures forall p :: 0 <= p < n ==>
        var r := IndexAt(p, categoryPositions);
        (r >= 0 ==> r < |visible| && ItemPosition(r, categoryPositions) == p) &&
        (r < 0 ==> 0 <= -r - 1 < |categoryPositions| && CategoryIndexToSuperPosition(-r - 1, categoryPositions) == p)
    {
      n := |visible| + |categoryPositions|;
      CategoryPositionsValid(visible, comparator);
      forall p | 0 <= p < n
        ensures var r := IndexAt(p, categoryPositions);
          (r >= 0 ==> r < |visible| && ItemPosition(r, categoryPositions) == p) &&
          (r < 0 ==> 0 <= -r - 1 < |categoryPositions| && CategoryIndexToSuperPosition(-r - 1, categoryPositions) == p)
      {
        PositionsCovered(p, categoryPositions, |visible|);
      }
    }

    /** isGroup: a position >= 0 is a group exactly when a header sits there; every negative position is. */
    method IsGroup(position: int) returns (b: bool)
      requires Valid()
      ensures b <==> (position < 0 ||
        exists k :: 0 <= k < |categoryPositions| && CategoryIndexToSuperPosition(k, categoryPositions) == position)
    {
      CategoryPositionsValid(visible, comparator);
      var index := SuperPositionToIndex(position, categoryPositions);
      b := index < 0;
      if position >= 0 {
        PositionDecoded(position, categoryPositions);
        if !b {
          forall k | 0 <= k < |categoryPositions|
            ensures CategoryIndexToSuperPosition(k, categoryPositions) != position
          {
            HeaderRoundTrip(k, categoryPositions);
          }
        }
      } else if categoryPositions != [] {
        assert HeaderPositions(categoryPositions)[0] == 0;
      }
    }

    /** listIndexToSuperPosition: the flat position of visible item `index`, which decodes back to it. */
    method ListIndexToSuperPosition(index: int) returns (position: int)
      requires Valid()
      ensures position == ItemPosition(index, categoryPositions)
      ensures index >= 0 ==> IndexAt(position, categoryPositions) == index
      ensures 0 <= index < |visible| ==> position < |visible| + |categoryPositions|
    {
      CategoryPositionsValid(visible, comparator);
      position := ItemToSuperPosition(index, categoryPositions);
    }
  }
}
