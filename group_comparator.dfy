/**
 * GroupComparatorImpl: orders items first by the group they belong to and,
 * within a group, by an item comparator. The abstract members a subclass
 * supplies (getGroup, groupCompare, itemCompare) are the fields here.
 */
module GroupComparators {
  import opened CompareUtils

  datatype GroupComparator<!M, !G> = GroupComparator(
    getGroup: M -> G,
    groupCompare: (G, G) -> int,
    itemCompare: (M, M) -> int)
  {
    /** getIntraGroupComparator: compares items the way itemCompare does. */
    function IntraGroupComparator(): (c: (M, M) -> int)
      ensures c == itemCompare
    {
      itemCompare
    }

    /** getGroupComparator: compares groups the way groupCompare does. */
    function GroupOrder(): (c: (G, G) -> int)
      ensures c == groupCompare
    {
      groupCompare
    }

    /** The group order read as an order on items. */
    function ByGroup(): (M, M) -> int {
      (l: M, r: M) => groupCompare(getGroup(l), getGroup(r))
    }

    /** compare: the group result unless it is a tie, then the item result. */
    function Compare(lhs: M, rhs: M): int {
      var categoryResult := groupCompare(getGroup(lhs), getGroup(rhs));
      if categoryResult != 0 then categoryResult else itemCompare(lhs, rhs)
    }

    /** compare is the lexicographic merge of the group order and the item order. */
    lemma CompareIsMerge(lhs: M, rhs: M)
      ensures Compare(lhs, rhs) == MergeComparators([ByGroup(), itemCompare])(lhs, rhs)
    {
      var cs := [ByGroup(), itemCompare];
      assert cs[0](lhs, rhs) == groupCompare(getGroup(lhs), getGroup(rhs));
      assert FirstDecisive(lhs, rhs, cs[1..]) == (if itemCompare(lhs, rhs) != 0 then 0 else 1);
    }

    /** compare is antisymmetric on a pair whenever both orders are. */
    lemma CompareAntisymmetric(lhs: M, rhs: M)
      requires Antisymmetric(groupCompare, getGroup(lhs), getGroup(rhs))
      requires Antisymmetric(itemCompare, lhs, rhs)
      ensures Sign(Compare(lhs, rhs)) == -Sign(Compare(rhs, lhs))
    {
      CompareIsMerge(lhs, rhs);
      CompareIsMerge(rhs, lhs);
      var cs := [ByGroup(), itemCompare];
      assert Antisymmetric(cs[0], lhs, rhs);
      assert Antisymmetric(cs[1], lhs, rhs);
      MergeAntisymmetric(cs, lhs, rhs);
    }
  }
}
