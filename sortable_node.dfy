/** A tree-table node that sorts its own direct children by one column.
    The stored child order (model order) is left alone; a sort caches the
    view-to-model rows and the model-to-view positions instead, and the
    child accessors translate through them. */
module SortableNode {
  import opened Comparator
  import opened RowOrder

  /** The children's values in one column, in model order
      (getValueAt(column) of each child). */
  function Keys<C>(cs: seq<C>, column: int, valueAt: (C, int) -> Option<int>): seq<Option<int>> {
    seq(|cs|, i requires 0 <= i < |cs| => valueAt(cs[i], column))
  }

  /** The children reordered by their sorted rows: what a presort stores
      and what a sorted node shows. */
  function SortedChildren<C>(cs: seq<C>, column: int, ascending: bool, valueAt: (C, int) -> Option<int>): (r: seq<C>)
    ensures |r| == |cs|
    ensures multiset(r) == multiset(cs)
    ensures KeysOrdered(ascending, Keys(r, column, valueAt))
  {
    var rows := SortRows(ascending, BuildRows(Keys(cs, column, valueAt)));
    GatheredRowsOrdered(cs, column, ascending, valueAt);
    Gather(cs, rows)
  }

  /** Gathering the children by their sorted rows keeps every child and
      puts their keys in the sort's key order. */
  lemma GatheredRowsOrdered<C>(cs: seq<C>, column: int, ascending: bool, valueAt: (C, int) -> Option<int>)
    ensures var rows := SortRows(ascending, BuildRows(Keys(cs, column, valueAt)));
      && InRange(rows, |cs|)
      && multiset(Gather(cs, rows)) == multiset(cs)
      && KeysOrdered(ascending, Keys(Gather(cs, rows), column, valueAt))
  {
    var keys := Keys(cs, column, valueAt);
    var rows := SortRows(ascending, BuildRows(keys));
    SortedRowsPermuteIndices(ascending, keys);
    GatherPermutes(cs, keys, rows);
    SortedRowKeysOrdered(ascending, keys);
    var r := Gather(cs, rows);
    assert Keys(r, column, valueAt) == RowKeys(rows);
  }

  /** Presorting children and then sorting them by the same column and
      direction gives the identity mapping, and presorting twice changes
      nothing the second time. */
  lemma PresortThenSortIsIdentity<C>(cs: seq<C>, column: int, ascending: bool, valueAt: (C, int) -> Option<int>)
    ensures var p := SortedChildren(cs, column, ascending, valueAt);
      && SortRows(ascending, BuildRows(Keys(p, column, valueAt))) == BuildRows(Keys(p, column, valueAt))
      && SortedChildren(p, column, ascending, valueAt) == p
  {
    var p := SortedChildren(cs, column, ascending, valueAt);
    var keys := Keys(p, column, valueAt);
    OrderedKeysSortToIdentity(ascending, keys);
    assert Gather(p, BuildRows(keys)) == p;
  }

  /** The sorted children are the children gathered by the sorted rows. */
  lemma SortedChildrenGathersRows<C>(cs: seq<C>, column: int, ascending: bool, valueAt: (C, int) -> Option<int>)
    ensures var rows := SortRows(ascending, BuildRows(Keys(cs, column, valueAt)));
      && InRange(rows, |cs|)
      && SortedChildren(cs, column, ascending, valueAt) == Gather(cs, rows)
  {
    SortedRowsPermuteIndices(ascending, Keys(cs, column, valueAt));
  }

  /** The children in the order the rows of `a` name them (the loop of
      presortChildren that builds the new child list). */
  method GatherChildren<C>(cs: seq<C>, a: array<Row>) returns (r: seq<C>)
    requires InRange(a[..], |cs|)
    ensures r == Gather(cs, a[..])
  {
    r := [];
    var k := 0;
    while k < a.Length
      invariant 0 <= k <= a.Length
      invariant |r| == k
      invariant forall j :: 0 <= j < k ==> r[j] == cs[a[j].modelIndex]
    {
      r := r + [cs[a[k].modelIndex]];
      k := k + 1;
    }
  }

  /** The row-building loop of sort and presortChildren: one row per
      child, carrying its value in `column` and its model position. */
  method LoadRows<C>(cs: seq<C>, column: int, valueAt: (C, int) -> Option<int>) returns (a: array<Row>)
    ensures fresh(a)
    ensures a[..] == BuildRows(Keys(cs, column, valueAt))
  {
    a := new Row[|cs|];
    var x := 0;
    while x < |cs|
      invariant 0 <= x <= |cs|
      invariant forall k :: 0 <= k < x ==> a[k] == Row(valueAt(cs[k], column), k)
    {
      a[x] := Row(valueAt(cs[x], column), x);
      x := x + 1;
    }
  }

  /** The backward loop of sort: writes each view position at the model
      position its row names, giving the inverse of the sorted rows. */
  method InvertRows(viewToModel: array<Row>, ghost keys: seq<Option<int>>) returns (modelToView: array<int>)
    requires multiset(viewToModel[..]) == multiset(BuildRows(keys))
    ensures fresh(modelToView)
    ensures InversePair(viewToModel[..], modelToView[..])
  {
    var count := viewToModel.Length;
    ghost var rows := viewToModel[..];
    RowsOfPermutation(keys, rows);
    modelToView := new int[count];
    var i := count - 1;
    while i >= 0
      invariant -1 <= i < count
      invariant forall k :: i < k < count ==> modelToView[rows[k].modelIndex] == k
    {
      modelToView[viewToModel[i].modelIndex] := i;
      i := i - 1;
    }
    forall m | 0 <= m < count ensures 0 <= modelToView[m] < count && rows[modelToView[m]].modelIndex == m {
      assert Row(keys[m], m) in rows;
      var k :| 0 <= k < count && rows[k] == Row(keys[m], m);
    }
  }

  /** The body of sort for a node with children: load the rows, sort
      them, and invert the result. */
  method SortedMapping<C>(cs: seq<C>, column: int, ascending: bool, valueAt: (C, int) -> Option<int>)
    returns (viewToModel: array<Row>, modelToView: array<int>)
    ensures fresh(viewToModel) && fresh(modelToView)
    ensures viewToModel[..] == SortRows(ascending, BuildRows(Keys(cs, column, valueAt)))
    ensures InversePair(viewToModel[..], modelToView[..])
  {
    ghost var keys := Keys(cs, column, valueAt);
    ghost var rows := SortRows(ascending, BuildRows(keys));
    assert multiset(rows) == multiset(BuildRows(keys));
    viewToModel := LoadRows(cs, column, valueAt);
    SortInPlace(ascending, viewToModel);
    assert viewToModel[..] == rows;
    modelToView := InvertRows(viewToModel, keys);
  }

  /** List.indexOf: the first position holding `x`, or -1. */
  function IndexOf<C(==)>(s: seq<C>, x: C): (r: int)
    ensures -1 <= r < |s|
    ensures r == -1 <==> x !in s
    ensures 0 <= r ==> s[r] == x && forall j :: 0 <= j < r ==> s[j] != x
  {
    if s == [] then -1
    else if s[0] == x then 0
    else
      var k := IndexOf(s[1..], x);
      if k == -1 then -1 else k + 1
  }

  class SortableTreeTableNode<C(==)> {
    /** The children in model order. */
    var children: seq<C>
    /** Whether this node may have children at all (from the tree node). */
    var allowsChildren: bool
    var sortable: bool
    var sorted: bool
    /** Model position -> view position, from the last sort. */
    var modelToView: array<int>
    /** View position -> row of the child shown there, from the last sort. */
    var viewToModel: array<Row>

    /** The cached arrays are always mutually inverse, and while the node
        is sorted they cover every child. */
    ghost predicate Valid()
      reads this, viewToModel, modelToView
    {
      && InversePair(viewToModel[..], modelToView[..])
      && (sorted ==> viewToModel.Length == |children|)
    }

    /** A node is created unsorted; no mapping has been computed yet. */
    constructor (children: seq<C>, allowsChildren: bool, sortable: bool)
      ensures Valid()
      ensures this.children == children && this.allowsChildren == allowsChildren
      ensures this.sortable == sortable && !sorted
    {
      this.children := children;
      this.allowsChildren := allowsChildren;
      this.sortable := sortable;
      sorted := false;
      modelToView := new int[0];
      viewToModel := new Row[0];
    }

    /** A view position to the model position shown there; the identity
        while unsorted. */
    function ConvertRowIndexToModel(index: int): (r: int)
      reads this, viewToModel, modelToView
      requires Valid()
      requires sorted ==> 0 <= index < viewToModel.Length
      ensures !sorted ==> r == index
      ensures sorted ==> 0 <= r < modelToView.Length && modelToView[r] == index
    {
      if sorted then viewToModel[index].modelIndex else index
    }

    /** A model position to the view position it is shown at; the identity
        while unsorted, and -1 or a position past the mapping pass through
        unchanged. */
    function ConvertRowIndexToView(index: int): (r: int)
      reads this, viewToModel, modelToView
      requires Valid()
      requires sorted ==> -1 <= index
      ensures !sorted ==> r == index
      ensures sorted && (index == -1 || index >= modelToView.Length) ==> r == index
      ensures sorted && 0 <= index < modelToView.Length ==>
        0 <= r < viewToModel.Length && viewToModel[r].modelIndex == index
    {
      if sorted then
        if index == -1 || index >= modelToView.Length then index else modelToView[index]
      else
        index
    }

    /** The child shown at a view position: the stored child there when the
        node is unsortable or unsorted, otherwise the child whose model
        position maps to that view position. */
    function GetChildAt(childIndex: int): (r: C)
      reads this, viewToModel, modelToView
      requires Valid()
      requires 0 <= childIndex < |children|
      ensures !sortable || !sorted ==> r == children[childIndex]
      ensures sortable && sorted ==>
        exists k :: 0 <= k < |children| && modelToView[k] == childIndex && r == children[k]
    {
      if !sortable || !sorted then
        children[childIndex]
      else
        var k := ConvertRowIndexToModel(childIndex);
        assert modelToView[k] == childIndex;
        children[k]
    }

    /** The view position of a child, -1 when it is not a child. */
    function GetIndex(node: C): (r: int)
      reads this, viewToModel, modelToView
      requires Valid()
      ensures r == -1 <==> node !in children
      ensures node in children ==> 0 <= r < |children| && children[ConvertRowIndexToModel(r)] == node
      ensures node in children && (sortable || !sorted) ==> GetChildAt(r) == node
    {
      var x := IndexOf(children, node);
      ConvertRowIndexToView(x)
    }

    /** Whether the last sort is still in force; an unsorted node shows its
        children in model order. */
    function IsSorted(): (r: bool)
      reads this, viewToModel, modelToView
      requires Valid()
      ensures r ==> viewToModel.Length == |children| && modelToView.Length == |children|
      ensures !r ==> forall i :: 0 <= i < |children| ==> ConvertRowIndexToModel(i) == i && GetChildAt(i) == children[i]
    {
      sorted
    }

    /** Whether a coordinator should sort this node: leaves, nodes that may
        not have children and unsortable nodes are skipped. */
    function CanSort(): (r: bool)
      reads this
      ensures r ==> sortable && allowsChildren && |children| > 0
      ensures sortable && allowsChildren && |children| > 0 ==> r
    {
      if !sortable || !allowsChildren then false
      else if |children| == 0 then false
      else true
    }

    /** Only to be called before the node is attached; it has no other
        effect. */
    method SetSortable(sortable: bool)
      requires Valid()
      modifies this`sortable
      ensures Valid() && this.sortable == sortable
    {
      this.sortable := sortable;
    }

    /** Drops the sort: the node shows its stored order again. */
    method Reset()
      requires Valid()
      modifies this`sorted
      ensures Valid() && !sorted
      ensures forall i :: 0 <= i < |children| ==> GetChildAt(i) == children[i]
    {
      sorted := false;
    }

    /** Sorts the children by `column` in the given direction without
        moving them: viewToModel becomes the sorted rows, modelToView its
        inverse. With no children the node only becomes unsorted. */
    method Sort(column: int, ascending: bool, valueAt: (C, int) -> Option<int>)
      requires Valid()
      modifies this
      ensures Valid()
      ensures children == old(children) && sortable == old(sortable) && allowsChildren == old(allowsChildren)
      ensures |children| == 0 ==>
        !sorted && viewToModel == old(viewToModel) && modelToView == old(modelToView)
      ensures |children| > 0 ==>
        && sorted && fresh(viewToModel) && fresh(modelToView)
        && viewToModel[..] == SortRows(ascending, BuildRows(Keys(children, column, valueAt)))
      ensures old(CanSort()) ==> sorted
    {
      var count := |children|;
      if count == 0 {
        sorted := false;
        return;
      }
      var v2m, m2v := SortedMapping(children, column, ascending, valueAt);
      modelToView, viewToModel, sorted := m2v, v2m, true;
    }

    /** After a sort the node shows its children in exactly the order a
        presort by the same column and direction would store them. */
    lemma SortedViewIsSortedChildren(column: int, ascending: bool, valueAt: (C, int) -> Option<int>)
      requires Valid() && sortable && sorted
      requires viewToModel[..] == SortRows(ascending, BuildRows(Keys(children, column, valueAt)))
      ensures forall i :: 0 <= i < |children| ==>
        GetChildAt(i) == SortedChildren(children, column, ascending, valueAt)[i]
    {
      SortedChildrenGathersRows(children, column, ascending, valueAt);
      forall i | 0 <= i < |children|
        ensures GetChildAt(i) == SortedChildren(children, column, ascending, valueAt)[i]
      {
        assert viewToModel[..][i] == viewToModel[i];
      }
    }

    /** Reorders the stored children by `column` in the given direction;
        the cached mapping and the sorted flag are left as they are. */
    method PresortChildren(column: int, ascending: bool, valueAt: (C, int) -> Option<int>)
      requires Valid()
      modifies this`children
      ensures Valid()
      ensures children == SortedChildren(old(children), column, ascending, valueAt)
      ensures sorted == old(sorted) && viewToModel == old(viewToModel) && modelToView == old(modelToView)
    {
      var count := |children|;
      if count == 0 {
        return;
      }
      var work := LoadRows(children, column, valueAt);
      SortInPlace(ascending, work);
      SortedChildrenGathersRows(children, column, ascending, valueAt);
      var newChildren := GatherChildren(children, work);
      var i := 0;
      while i < |newChildren|
        invariant 0 <= i <= count && |children| == count
        invariant forall j :: 0 <= j < i ==> children[j] == newChildren[j]
      {
        children := children[i := newChildren[i]];
        i := i + 1;
      }
      assert children == newChildren;
    }
  }
}
