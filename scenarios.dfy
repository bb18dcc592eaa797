/** Worked examples of the node sort: concrete keys and the mappings they
    sort to. */
module Scenarios {
  import opened Comparator
  import opened RowOrder
  import opened SortableNode

  lemma ThreeValuesFacts(x: int, y: int, z: int)
    requires y < z < x
    ensures BuildRows([Some(x), Some(y), Some(z)]) == [Row(Some(x), 0), Row(Some(y), 1), Row(Some(z), 2)]
    ensures Sorted(true, [Row(Some(y), 1), Row(Some(z), 2), Row(Some(x), 0)])
    ensures Sorted(false, [Row(Some(x), 0), Row(Some(z), 2), Row(Some(y), 1)])
    ensures InversePair([Row(Some(y), 1), Row(Some(z), 2), Row(Some(x), 0)], [2, 0, 1])
  {
  }

  /** Values like [30, 10, 20] sorted ascending: viewToModel names model
      rows [1, 2, 0], modelToView is [2, 0, 1], and view row 0 holds the
      smallest value. */
  lemma AscendingThreeValues(x: int, y: int, z: int)
    requires y < z < x
    ensures var s := SortRows(true, BuildRows([Some(x), Some(y), Some(z)]));
      && s == [Row(Some(y), 1), Row(Some(z), 2), Row(Some(x), 0)]
      && InversePair(s, [2, 0, 1])
  {
    ThreeValuesFacts(x, y, z);
    var e := [Row(Some(y), 1), Row(Some(z), 2), Row(Some(x), 0)];
    assert multiset(e) == multiset([Row(Some(x), 0), Row(Some(y), 1), Row(Some(z), 2)]);
    SortedPermutationIsSortRows(true, BuildRows([Some(x), Some(y), Some(z)]), e);
  }

  /** The same values sorted descending: the keys are distinct, so the
      view order is the ascending one reversed. */
  lemma DescendingThreeValues(x: int, y: int, z: int)
    requires y < z < x
    ensures SortRows(false, BuildRows([Some(x), Some(y), Some(z)]))
      == [Row(Some(x), 0), Row(Some(z), 2), Row(Some(y), 1)]
  {
    ThreeValuesFacts(x, y, z);
    var e := [Row(Some(x), 0), Row(Some(z), 2), Row(Some(y), 1)];
    assert multiset(e) == multiset([Row(Some(x), 0), Row(Some(y), 1), Row(Some(z), 2)]);
    SortedPermutationIsSortRows(false, BuildRows([Some(x), Some(y), Some(z)]), e);
  }

  lemma TiedValuesFacts(t: int, u: int)
    requires u < t
    ensures BuildRows([Some(t), Some(t), Some(u)]) == [Row(Some(t), 0), Row(Some(t), 1), Row(Some(u), 2)]
    ensures Sorted(true, [Row(Some(u), 2), Row(Some(t), 0), Row(Some(t), 1)])
    ensures Sorted(false, [Row(Some(t), 0), Row(Some(t), 1), Row(Some(u), 2)])
  {
  }

  /** Values like [10, 10, 5]: the two equal values keep their model order
      in both directions; ascending gives viewToModel model rows [2, 0, 1],
      descending [0, 1, 2], which is not the ascending order reversed. */
  lemma TiedValuesKeepModelOrder(t: int, u: int)
    requires u < t
    ensures SortRows(true, BuildRows([Some(t), Some(t), Some(u)]))
      == [Row(Some(u), 2), Row(Some(t), 0), Row(Some(t), 1)]
    ensures SortRows(false, BuildRows([Some(t), Some(t), Some(u)]))
      == BuildRows([Some(t), Some(t), Some(u)])
  {
    TiedValuesFacts(t, u);
    var b := [Row(Some(t), 0), Row(Some(t), 1), Row(Some(u), 2)];
    var e := [Row(Some(u), 2), Row(Some(t), 0), Row(Some(t), 1)];
    assert multiset(e) == multiset(b);
    SortedPermutationIsSortRows(true, BuildRows([Some(t), Some(t), Some(u)]), e);
    SortedPermutationIsSortRows(false, BuildRows([Some(t), Some(t), Some(u)]), b);
  }

  lemma NullFacts(v: int)
    ensures BuildRows([None, Some(v), None]) == [Row(None, 0), Row(Some(v), 1), Row(None, 2)]
    ensures Sorted(true, [Row(None, 0), Row(None, 2), Row(Some(v), 1)])
    ensures Sorted(false, [Row(Some(v), 1), Row(None, 0), Row(None, 2)])
  {
  }

  /** Values [null, v, null]: the nulls come first ascending and last
      descending, and keep their model order in both directions. */
  lemma NullsInBothDirections(v: int)
    ensures SortRows(true, BuildRows([None, Some(v), None]))
      == [Row(None, 0), Row(None, 2), Row(Some(v), 1)]
    ensures SortRows(false, BuildRows([None, Some(v), None]))
      == [Row(Some(v), 1), Row(None, 0), Row(None, 2)]
  {
    NullFacts(v);
    var b := [Row(None, 0), Row(Some(v), 1), Row(None, 2)];
    var up := [Row(None, 0), Row(None, 2), Row(Some(v), 1)];
    var down := [Row(Some(v), 1), Row(None, 0), Row(None, 2)];
    assert multiset(up) == multiset(b) && multiset(down) == multiset(b);
    SortedPermutationIsSortRows(true, BuildRows([None, Some(v), None]), up);
    SortedPermutationIsSortRows(false, BuildRows([None, Some(v), None]), down);
  }

  /** A client of the node: three children whose column value is their
      own id (30, 10 and 20, say); sorted ascending, the node shows the
      smallest first. */
  method SortShowsSmallestFirst(x: int, y: int, z: int)
    requires y < z < x
  {
    var node := new SortableTreeTableNode([x, y, z], true, true);
    var valueAt := (c: int, column: int) => Some(c);
    assert node.CanSort();
    node.Sort(0, true, valueAt);
    assert Keys([x, y, z], 0, valueAt) == [Some(x), Some(y), Some(z)];
    AscendingThreeValues(x, y, z);
    assert node.viewToModel[..] == [Row(Some(y), 1), Row(Some(z), 2), Row(Some(x), 0)];
    assert node.viewToModel[0].modelIndex == 1;
    assert node.GetChildAt(0) == y;
  }

  /** After a reset the same node shows its stored order again. */
  method ResetRestoresModelOrder(x: int, y: int, z: int) {
    var node := new SortableTreeTableNode([x, y, z], true, true);
    node.Sort(0, true, (c: int, column: int) => Some(c));
    node.Reset();
    assert node.GetChildAt(0) == x;
  }

  /** A node with no children stays unsorted when asked to sort. */
  method SortWithoutChildren() {
    var node := new SortableTreeTableNode<int>([], true, true);
    node.Sort(0, false, (c: int, column: int) => None);
    assert !node.IsSorted();
  }
}
