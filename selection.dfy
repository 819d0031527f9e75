/**
 * SelectionManager implementations. Both track selected items by their
 * adapter item id (getItemId), so every position sharing an id shares the
 * selection state. The adapter appears as its getItemId function and its
 * hasStableIds flag.
 */
module Selection {
  import opened Wrappers

  /** Integer.MAX_VALUE, the default maximum number of selections. */
  const IntegerMaxValue: int := 0x7fff_ffff

  /** Allows several items to be selected, up to a maximum. */
  class MultiSelectManager {
    /** The adapter's getItemId. */
    const itemId: int -> int
    const maximumSelectable: int
    /** The ids of the selected items. */
    var selected: set<int>

    /** A nonnegative maximum bounds the number of selections. */
    predicate Valid()
      reads this
    {
      maximumSelectable >= 0 ==> |selected| <= maximumSelectable
    }

    constructor (itemId: int -> int, maximumSelectable: int)
      ensures this.itemId == itemId && this.maximumSelectable == maximumSelectable
      ensures selected == {} && Valid()
    {
      this.itemId := itemId;
      this.maximumSelectable := maximumSelectable;
      selected := {};
    }

    /** The two-argument constructor: fails unless the adapter has stable ids. */
    static method Create(itemId: int -> int, hasStableIds: bool, maximumSelectable: int)
      returns (r: Option<MultiSelectManager>)
      ensures r.None? <==> !hasStableIds
      ensures r.Some? ==> fresh(r.value) && r.value.Valid() && r.value.selected == {}
      ensures r.Some? ==> r.value.itemId == itemId && r.value.maximumSelectable == maximumSelectable
    {
      var manager := new MultiSelectManager(itemId, maximumSelectable);
      if !hasStableIds {
        return None;
      }
      r := Some(manager);
    }

    /** The one-argument constructor: the maximum is Integer.MAX_VALUE. */
    static method CreateUnbounded(itemId: int -> int, hasStableIds: bool)
      returns (r: Option<MultiSelectManager>)
      ensures r.None? <==> !hasStableIds
      ensures r.Some? ==> fresh(r.value) && r.value.Valid() && r.value.selected == {}
      ensures r.Some? ==> r.value.itemId == itemId && r.value.maximumSelectable == IntegerMaxValue
    {
      r := Create(itemId, hasStableIds, IntegerMaxValue);
    }

    /** isItemSelected: the item's id is among the selected ids. */
    predicate IsItemSelected(position: int)
      reads this
    {
      itemId(position) in selected
    }

    /**
     * selectItem: a selection is refused once the maximum is reached, even
     * for an id already selected; otherwise the id is added or removed and
     * the request is accepted. Other ids keep their state.
     */
    method SelectItem(position: int, select: bool) returns (accepted: bool)
      requires Valid()
      modifies this
      ensures Valid()
      ensures select && |old(selected)| == maximumSelectable ==> !accepted && selected == old(selected)
      ensures select && |old(selected)| != maximumSelectable ==>
        accepted && selected == old(selected) + {itemId(position)}
      ensures !select ==> accepted && selected == old(selected) - {itemId(position)}
      ensures accepted ==> (IsItemSelected(position) <==> select)
      ensures forall q :: itemId(q) != itemId(position) ==> (IsItemSelected(q) <==> old(IsItemSelected(q)))
    {
      if select {
        if |selected| == maximumSelectable {
          return false;
        }
        if itemId(position) !in selected {
          assert |selected + {itemId(position)}| == |selected| + 1;
        }
        selected := selected + {itemId(position)};
      } else {
        selected := selected - {itemId(position)};
      }
      accepted := true;
    }

    /** clearSelections: no item is selected afterwards. */
    method ClearSelections()
      modifies this
      ensures selected == {} && Valid()
      ensures forall q :: !IsItemSelected(q)
    {
      selected := {};
    }

    /** getCount: the number of selected ids, within the maximum when that is nonnegative. */
    function GetCount(): (n: nat)
      reads this
      requires Valid()
      ensures n == |selected|
      ensures maximumSelectable >= 0 ==> n <= maximumSelectable
    {
      |selected|
    }
  }

  /** Two positions with the same id are selected together in a multi-select manager. */
  lemma MultiSelectSharedIds(manager: MultiSelectManager, p: int, q: int)
    requires manager.itemId(p) == manager.itemId(q)
    ensures manager.IsItemSelected(p) <==> manager.IsItemSelected(q)
  {
  }

  /** Allows a single item to be selected at a time. */
  class RadioSelectManager {
    /** The adapter's getItemId. */
    const itemId: int -> int
    /** The id of the selected item; None stands for null. */
    var selected: Option<int>

    constructor (itemId: int -> int)
      ensures this.itemId == itemId && selected == None
    {
      this.itemId := itemId;
      selected := None;
    }

    /** The constructor: fails unless the adapter has stable ids. */
    static method Create(itemId: int -> int, hasStableIds: bool) returns (r: Option<RadioSelectManager>)
      ensures r.None? <==> !hasStableIds
      ensures r.Some? ==> fresh(r.value) && r.value.itemId == itemId && r.value.selected == None
    {
      var manager := new RadioSelectManager(itemId);
      if !hasStableIds {
        return None;
      }
      r := Some(manager);
    }

    /** isItemSelected: something is selected and it is this item's id. */
    predicate IsItemSelected(position: int)
      reads this
    {
      selected.Some? && selected.value == itemId(position)
    }

    /**
     * selectItem: selecting replaces any previous selection; unselecting
     * clears the selection whichever item was selected. Always accepted.
     */
    method SelectItem(position: int, select: bool) returns (accepted: bool)
      modifies this
      ensures accepted
      ensures selected == if select then Some(itemId(position)) else None
      ensures forall q :: IsItemSelected(q) <==> select && itemId(q) == itemId(position)
    {
      selected := if select then Some(itemId(position)) else None;
      accepted := true;
    }

    /** clearSelections: no position is selected afterwards. */
    method ClearSelections()
      modifies this
      ensures selected == None
      ensures forall q :: !IsItemSelected(q)
    {
      selected := None;
    }
  }

  /** A radio manager never has two ids selected at once. */
  lemma RadioSelectsOneId(manager: RadioSelectManager, p: int, q: int)
    requires manager.IsItemSelected(p) && manager.IsItemSelected(q)
    ensures manager.itemId(p) == manager.itemId(q)
  {
  }
}
