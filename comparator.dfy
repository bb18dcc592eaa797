/** The comparison a sortable tree-table node uses to order its direct
    children by one column: null keys are least, a descending sort flips
    the sign of the key comparison, and ties fall back to model order. */
module Comparator {

  datatype Option<T> = None | Some(value: T)

  /** One keyed row: the value a child holds in the sort column (None for
      a null value) and the child's position in the node's stored order.
      The sort direction, which every row of one sort shares, is passed to
      CompareTo instead of being stored in each row. */
  datatype Row = Row(key: Option<int>, modelIndex: int)

  /** Reference order on keys before any direction is applied: a missing
      key is below every present key, present keys compare numerically. */
  predicate KeyLess(a: Option<int>, b: Option<int>) {
    match (a, b)
    case (None, Some(_)) => true
    case (Some(x), Some(y)) => x < y
    case _ => false
  }

  /** The key comparison of Row.compareTo, before the direction flip.
      Integer.compareTo answers -1, 0 or 1. */
  function KeyCompare(a: Option<int>, b: Option<int>): (r: int)
    ensures -1 <= r <= 1
    ensures r == 0 <==> a == b
    ensures r < 0 <==> KeyLess(a, b)
    ensures r > 0 <==> KeyLess(b, a)
    ensures a.None? && b.Some? ==> r < 0
    ensures a.Some? && b.None? ==> r > 0
  {
    if a.None? then
      (if b.None? then 0 else -1)
    else if b.None? then
      1
    else if a.value < b.value then -1
    else if a.value == b.value then 0
    else 1
  }

  /** The key order in the direction of the sort. */
  predicate DirectedKeyLess(ascending: bool, a: Option<int>, b: Option<int>) {
    if ascending then KeyLess(a, b) else KeyLess(b, a)
  }

  /** Reference order on rows: the directed key order, and among rows
      with equal keys, ascending model index. */
  predicate Before(ascending: bool, x: Row, y: Row) {
    DirectedKeyLess(ascending, x.key, y.key) || (x.key == y.key && x.modelIndex < y.modelIndex)
  }

  /** `x` sorts no later than `y`. */
  predicate AtMost(ascending: bool, x: Row, y: Row) {
    !Before(ascending, y, x)
  }

  /** Row.compareTo: a negative result puts `x` first, a positive one `y`,
      and only a row compared with an identical row gives zero. */
  function CompareTo(ascending: bool, x: Row, y: Row): (r: int)
    ensures r < 0 <==> Before(ascending, x, y)
    ensures r > 0 <==> Before(ascending, y, x)
    ensures r == 0 <==> x == y
    ensures x.key == y.key ==> r == x.modelIndex - y.modelIndex
  {
    var keyResult := KeyCompare(x.key, y.key);
    var result := if ascending then keyResult else keyResult * -1;
    if result == 0 then x.modelIndex - y.modelIndex else result
  }

  /** Two null keys tie before the tie-break, and a null key is below a
      present one; a descending sort turns the latter around. */
  lemma NullKeysOrder(ascending: bool, x: Row, y: Row)
    ensures x.key.None? && y.key.None? ==> CompareTo(ascending, x, y) == x.modelIndex - y.modelIndex
    ensures x.key.None? && y.key.Some? ==> (CompareTo(ascending, x, y) < 0 <==> ascending)
  {
  }

  /** Rows whose keys differ compare with opposite signs in the two
      directions; rows whose keys are equal compare the same way in both. */
  lemma DirectionFlipsSign(x: Row, y: Row)
    ensures x.key != y.key ==> CompareTo(false, x, y) == -CompareTo(true, x, y)
    ensures x.key == y.key ==> CompareTo(false, x, y) == CompareTo(true, x, y)
  {
  }

  /** Before is a strict total order on rows, so a sort by CompareTo has
      exactly one result whatever the algorithm and its stability. */
  lemma BeforeIsStrictTotalOrder(ascending: bool, x: Row, y: Row, z: Row)
    ensures !Before(ascending, x, x)
    ensures Before(ascending, x, y) ==> !Before(ascending, y, x)
    ensures Before(ascending, x, y) && Before(ascending, y, z) ==> Before(ascending, x, z)
    ensures x != y ==> Before(ascending, x, y) || Before(ascending, y, x)
  {
  }

  /** AtMost is transitive; the sortedness proofs chain it. */
  lemma AtMostTransitive(ascending: bool, x: Row, y: Row, z: Row)
    requires AtMost(ascending, x, y) && AtMost(ascending, y, z)
    ensures AtMost(ascending, x, z)
  {
    BeforeIsStrictTotalOrder(ascending, x, y, z);
    BeforeIsStrictTotalOrder(ascending, z, x, y);
    BeforeIsStrictTotalOrder(ascending, y, z, x);
  }
}
