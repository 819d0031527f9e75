/**
 * NaiveLookup: finds the models of an adapter whose item ids are in a set
 * by examining every position. The adapter appears as its item count, its
 * getItemId and its getModel.
 */
module NaiveLookups {

  /** The models at positions below `n` whose id is in `ids`. */
  ghost function ModelsMatching<T>(n: int, itemId: int -> int, model: int -> T, ids: set<int>): set<T> {
    set i | 0 <= i < n && itemId(i) in ids :: model(i)
  }

  /** Extending the scan by one position adds that position's model exactly when its id matches. */
  lemma ModelsMatchingNext<T>(n: int, itemId: int -> int, model: int -> T, ids: set<int>)
    requires n >= 0
    ensures ModelsMatching(n + 1, itemId, model, ids) ==
      ModelsMatching(n, itemId, model, ids) + (if itemId(n) in ids then {model(n)} else {})
  {
    var next, prev := ModelsMatching(n + 1, itemId, model, ids), ModelsMatching(n, itemId, model, ids);
    forall x | x in next ensures x in prev + (if itemId(n) in ids then {model(n)} else {}) {
      var i :| 0 <= i < n + 1 && itemId(i) in ids && model(i) == x;
      if i < n {
        assert x in prev;
      }
    }
  }

  /**
   * getModels: each position below the item count whose id is in `ids`
   * contributes its model, and nothing else is added.
   */
  method GetModels<T>(itemCount: int, itemId: int -> int, model: int -> T, ids: set<int>) returns (models: set<T>)
    ensures models == ModelsMatching(itemCount, itemId, model, ids)
    ensures forall i :: 0 <= i < itemCount && itemId(i) in ids ==> model(i) in models
    ensures forall x :: x in models ==> exists i :: 0 <= i < itemCount && itemId(i) in ids && model(i) == x
    ensures ids == {} ==> models == {}
  {
    models := {};
    var i := 0;
    while i < itemCount
      invariant 0 <= i && (i <= itemCount || i == 0)
      invariant models == ModelsMatching(i, itemId, model, ids)
    {
      ModelsMatchingNext(i, itemId, model, ids);
      if itemId(i) in ids {
        models := models + {model(i)};
      }
      i := i + 1;
    }
    if itemCount <= 0 {
      assert ModelsMatching(itemCount, itemId, model, ids) == {};
      assert ModelsMatching(0, itemId, model, ids) == {};
    }
  }
}
