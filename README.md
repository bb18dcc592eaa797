# Sortable tree-table node: per-node child sorting

This project models the sorting engine of `AbstractSortableTreeTableNode`, a
tree-table node that sorts its own direct children by one column. The node
never reorders its stored `children` list when it sorts. Instead it caches two
index arrays:

- `viewToModel` holds one `Row` per child, in sorted order. Each row carries
  the child's key in the sort column and the child's position in the stored
  order (its model index).
- `modelToView` is the inverse mapping.

The child accessors `getChildAt` and `getIndex` translate through these
arrays while the node is sorted. `presortChildren` is the one operation that
reorders the stored list itself, using the same comparison.

Layout:

- `comparator.dfy` (module `Comparator`) holds `Row.compareTo`, a reference
  order `Before` on rows, and the proof that `Before` is a strict total order
  that agrees with `compareTo`.
- `row_order.dfy` (module `RowOrder`) holds:
  - the rows built from the children's keys;
  - a sort of those rows (`SortRows`, and the array version `SortInPlace`
    that stands in for `Arrays.sort`);
  - the proof that every sorted permutation of the rows is that one;
  - the permutation, inverse, stability and null-placement facts about the
    sorted rows.
- `sortable_node.dfy` (module `SortableNode`) holds the node as a class with
  the fields the source mutates (`children`, `sortable`, `sorted`,
  `modelToView`, `viewToModel`) and the loops of `sort` and
  `presortChildren` as methods.
- `scenarios.dfy` (module `Scenarios`) holds worked examples:
  - values [30, 10, 20] sorted ascending give model rows [1, 2, 0] and
    `modelToView` [2, 0, 1];
  - tied values keep their model order;
  - null keys come first ascending and last descending.

Abstractions:

- A column value is an `Option<int>`: `None` is Java `null`, and `Some` is an
  `Integer` key ordered by `Integer.compareTo`, which answers -1, 0 or 1.
- The `SortOrder` of a sort is a `bool ascending`. All rows of one sort share
  it, so it is passed to `CompareTo` rather than stored in each row.
- Children are values of a type parameter `C`. `getValueAt(column)` on a child
  is the function parameter `valueAt`, because the child node classes are not
  part of this model.
- `getChildCount()` is `|children|`, and `getAllowsChildren()` is the field
  `allowsChildren`.

## Model

| member | source | states |
|---|---|---|
| Comparator.KeyCompare | java/SortableTreeTable/AbstractSortableTreeTableNode.java:237-251 | The key comparison before the direction flip: two nulls give 0, a null is below a present key, and present keys compare as Integer.compareTo (-1, 0 or 1); zero exactly when the keys are equal, negative exactly when KeyLess(a, b) |
| Comparator.CompareTo | java/SortableTreeTable/AbstractSortableTreeTableNode.java:236-260 | Row.compareTo is negative exactly when Before(x, y), positive exactly when Before(y, x), and zero only for identical rows; equal keys give modelIndex - r.modelIndex in either direction |
| Comparator.NullKeysOrder | java/SortableTreeTable/AbstractSortableTreeTableNode.java:238-258 | Two null keys fall through to the model-index tie-break; a null key sorts before a present key exactly when the order is ascending |
| Comparator.DirectionFlipsSign | java/SortableTreeTable/AbstractSortableTreeTableNode.java:252-258 | For different keys, the descending result is the negated ascending result; for equal keys both directions give the same tie-break result |
| Comparator.BeforeIsStrictTotalOrder | java/SortableTreeTable/AbstractSortableTreeTableNode.java:255-258 | Because of the model-index tie-break, the row order is irreflexive, asymmetric, transitive and total on distinct rows |
| Comparator.AtMostTransitive | java/SortableTreeTable/AbstractSortableTreeTableNode.java:236-260 | "Sorts no later than" is transitive |
| RowOrder.Insert | java/SortableTreeTable/AbstractSortableTreeTableNode.java:194 | Inserting a row into a row sequence adds exactly that row (multiset) and one to the length |
| RowOrder.InsertSorted | java/SortableTreeTable/AbstractSortableTreeTableNode.java:194 | Inserting into a sorted sequence keeps it sorted |
| RowOrder.SortRows | java/SortableTreeTable/AbstractSortableTreeTableNode.java:194 | The sort of the rows is a permutation of its input, of the same length, sorted by compareTo |
| RowOrder.SortInPlace | java/SortableTreeTable/AbstractSortableTreeTableNode.java:194 | Arrays.sort on the row array leaves the array holding the sorted permutation of its old contents |
| RowOrder.SortedUnique | java/SortableTreeTable/AbstractSortableTreeTableNode.java:194 | Two sorted permutations of the same rows are equal, so the outcome does not depend on the sort algorithm or its stability |
| RowOrder.SortedPermutationIsSortRows | java/SortableTreeTable/AbstractSortableTreeTableNode.java:194 | Any sorted permutation of the rows is the result of SortRows |
| RowOrder.DistinctIndicesNoDuplicate | java/SortableTreeTable/AbstractSortableTreeTableNode.java:187-192 | The rows built from the children (row x carries model index x) each occur once |
| RowOrder.RowsOfPermutation | java/SortableTreeTable/AbstractSortableTreeTableNode.java:187-194 | Any permutation of the built rows names every model position 0..count-1 exactly once, and each row carries the key of the child it names |
| RowOrder.SortedRowsPermuteIndices | java/SortableTreeTable/AbstractSortableTreeTableNode.java:185-194 | After the sort, the model indices in viewToModel are a permutation of 0..count-1, and each row keeps its child's key |
| RowOrder.SortedRowsStrict | java/SortableTreeTable/AbstractSortableTreeTableNode.java:194 | Every earlier row of viewToModel compares strictly below every later row |
| RowOrder.SortedRowsStable | java/SortableTreeTable/AbstractSortableTreeTableNode.java:255-258 | Rows with equal keys stay in model order, in both directions |
| RowOrder.SortedRowsNullsPlacement | java/SortableTreeTable/AbstractSortableTreeTableNode.java:238-254 | Null keys come before every present key in an ascending sort and after them in a descending sort |
| RowOrder.InverseUnique | java/SortableTreeTable/AbstractSortableTreeTableNode.java:196-198 | The view-to-model rows determine the model-to-view array |
| RowOrder.Gather | java/SortableTreeTable/AbstractSortableTreeTableNode.java:157-160 | The children in row order have one child per row |
| RowOrder.GatherMultiset | java/SortableTreeTable/AbstractSortableTreeTableNode.java:157-160 | Gathering by two permutations of the same rows gives permutations of the same children |
| RowOrder.GatherPermutes | java/SortableTreeTable/AbstractSortableTreeTableNode.java:152-160 | Gathering the children by any permutation of their rows keeps every child exactly once |
| RowOrder.SortedRowKeysOrdered | java/SortableTreeTable/AbstractSortableTreeTableNode.java:152-160 | The keys of the sorted rows stand in the directed key order |
| RowOrder.OrderedKeysSortToIdentity | java/SortableTreeTable/AbstractSortableTreeTableNode.java:187-194 | When the keys are already in the directed key order, the sort is the identity mapping |
| RowOrder.Reverse | java/SortableTreeTable/AbstractSortableTreeTableNode.java:252-254 | Reversing rows keeps the length |
| RowOrder.ReverseProperties | java/SortableTreeTable/AbstractSortableTreeTableNode.java:252-254 | The reversed rows hold row n-1-i at position i and are a permutation of the rows |
| RowOrder.DescendingIsReversedAscending | java/SortableTreeTable/AbstractSortableTreeTableNode.java:252-258 | With pairwise distinct keys, the descending sort is exactly the ascending sort reversed |
| SortableNode.SortedChildren | java/SortableTreeTable/AbstractSortableTreeTableNode.java:140-164 | The presorted child list is a permutation of the children, of the same length, with keys in the directed key order |
| SortableNode.GatheredRowsOrdered | java/SortableTreeTable/AbstractSortableTreeTableNode.java:152-160 | Gathering the children by the sorted rows keeps every child and orders their keys |
| SortableNode.PresortThenSortIsIdentity | java/SortableTreeTable/AbstractSortableTreeTableNode.java:140-200 | After a presort, a sort by the same column and direction gives the identity mapping, and a second presort changes nothing |
| SortableNode.SortedChildrenGathersRows | java/SortableTreeTable/AbstractSortableTreeTableNode.java:152-160 | The presorted children are the children named by the sorted rows, in order |
| SortableNode.GatherChildren | java/SortableTreeTable/AbstractSortableTreeTableNode.java:154-160 | The loop that builds newChildren collects children.get(r.modelIndex) for the rows in order |
| SortableNode.LoadRows | java/SortableTreeTable/AbstractSortableTreeTableNode.java:187-192 | The loop fills a fresh array with one row per child: the child's value in the column and its model position |
| SortableNode.InvertRows | java/SortableTreeTable/AbstractSortableTreeTableNode.java:185-198 | The backward loop fills a fresh modelToView that is the inverse of viewToModel: modelToView[viewToModel[i].modelIndex] == i, and each entry names the view position of its model row |
| SortableNode.SortedMapping | java/SortableTreeTable/AbstractSortableTreeTableNode.java:185-198 | The arrays of a sort of a non-empty node are fresh, viewToModel holds the sorted rows of the children, and modelToView is its inverse |
| SortableNode.IndexOf | java/SortableTreeTable/AbstractSortableTreeTableNode.java:94 | children.indexOf gives the first position holding the node, or -1 exactly when it is absent |
| SortableNode.SortableTreeTableNode.constructor | java/SortableTreeTable/AbstractSortableTreeTableNode.java:56-80 | A new node is unsorted and keeps the given sortable and allowsChildren settings |
| SortableNode.SortableTreeTableNode.ConvertRowIndexToModel | java/SortableTreeTable/AbstractSortableTreeTableNode.java:100-106 | The identity when unsorted; when sorted, the index must be a view position, and the model position returned maps back to it through modelToView |
| SortableNode.SortableTreeTableNode.ConvertRowIndexToView | java/SortableTreeTable/AbstractSortableTreeTableNode.java:108-118 | The identity when unsorted; when sorted, -1 and indices at or past modelToView.length pass through, and any other model position goes to the view position whose row names it |
| SortableNode.SortableTreeTableNode.GetChildAt | java/SortableTreeTable/AbstractSortableTreeTableNode.java:84-90 | The stored child at the index when the node is unsortable or unsorted; otherwise the child whose model position maps to that view index |
| SortableNode.SortableTreeTableNode.GetIndex | java/SortableTreeTable/AbstractSortableTreeTableNode.java:92-96 | -1 exactly for a node that is not a child; otherwise a view position that translates back to a model position holding the node, and getChildAt of it returns the node |
| SortableNode.SortableTreeTableNode.IsSorted | java/SortableTreeTable/AbstractSortableTreeTableNode.java:206-208 | A sorted node's arrays cover every child; an unsorted node translates every index to itself and shows its stored children |
| SortableNode.SortableTreeTableNode.CanSort | java/SortableTreeTable/AbstractSortableTreeTableNode.java:210-217 | True exactly when the node is sortable, allows children and has at least one child |
| SortableNode.SortableTreeTableNode.SetSortable | java/SortableTreeTable/AbstractSortableTreeTableNode.java:126-128 | Sets only the sortable flag and keeps the node's invariant |
| SortableNode.SortableTreeTableNode.Reset | java/SortableTreeTable/AbstractSortableTreeTableNode.java:202-204 | Clears only the sorted flag, after which getChildAt(i) is the stored child i for every i |
| SortableNode.SortableTreeTableNode.Sort | java/SortableTreeTable/AbstractSortableTreeTableNode.java:179-200 | With no children the node becomes unsorted and nothing else changes. Otherwise it becomes sorted, viewToModel holds the sorted rows of the children and modelToView its inverse, and the children and the flags are unchanged; a node that canSort ends sorted |
| SortableNode.SortableTreeTableNode.SortedViewIsSortedChildren | java/SortableTreeTable/AbstractSortableTreeTableNode.java:84-90 | After a sort, getChildAt shows exactly the child list a presort by the same column and direction would store |
| SortableNode.SortableTreeTableNode.PresortChildren | java/SortableTreeTable/AbstractSortableTreeTableNode.java:140-164 | The stored children become the presorted list (a sorted permutation of the old list, unchanged when empty); the sorted flag and the cached arrays are untouched |
| Scenarios.AscendingThreeValues | java/SortableTreeTable/AbstractSortableTreeTableNode.java:185-198 | Values like [30, 10, 20] sorted ascending give viewToModel model rows [1, 2, 0] and modelToView [2, 0, 1] |
| Scenarios.DescendingThreeValues | java/SortableTreeTable/AbstractSortableTreeTableNode.java:252-254 | The same values sorted descending give model rows [0, 2, 1] |
| Scenarios.TiedValuesKeepModelOrder | java/SortableTreeTable/AbstractSortableTreeTableNode.java:255-258 | Values like [10, 10, 5] give model rows [2, 0, 1] ascending and [0, 1, 2] descending: tied rows keep model order in both directions |
| Scenarios.NullsInBothDirections | java/SortableTreeTable/AbstractSortableTreeTableNode.java:238-258 | For values [null, v, null], the nulls come first ascending and last descending, keeping their model order |

## Left out

- The demo application (`SortableTreeTableDemo.java`: Swing frames, forms and demo data) is not part of this model. Its only contact with the core is calling `presortChildren` and the model's `sort`.
- The tree-table model and table classes that walk subtrees, call `sort`/`reset` and fire events (`SortableTreeTableModel`, `SortableTreeTable`) are not part of this model.
- The SwingX superclass internals (`AbstractMutableTreeTableNode`, its child list management and `getValueAt`) are left out. Children are a sequence of values, and the column lookup is the parameter `valueAt`.
- Inserting or removing children is left out. No operation of the model changes the child count, so the invariant `Valid` can state that a sorted node's arrays cover every child. The stale mappings a structural change would leave behind in the source are not modelled.
- `Arrays.sort` itself (a merge sort in the JDK) is replaced by `SortInPlace`, which writes back an insertion sort. `SortedUnique` shows every sorted permutation is that one result, so the choice of algorithm does not change any state the model describes.
- `canSort(String column)` is left out: it is a subclass hook that answers `true`.
- Keys are `Option<int>` ordered like `Integer.compareTo`. Mixed runtime `Comparable` types, the `ClassCastException` they raise, and `compareTo` implementations that return values other than -1/0/1 are left out. With -1/0/1 results, the `result *= -1` flip cannot overflow.
- `SortOrder.UNSORTED` is not a separate case: `isAscending()` is false for it, so it behaves as `ascending == false`.
- SortableNode.SortableTreeTableNode.constructor: the Java constructors take a user object and start with no children and null arrays. The model's constructor takes the child list directly and starts with empty arrays. The user object is left out because nothing in sorting reads it.
- SortableNode.SortableTreeTableNode.GetIndex: the round trip `getChildAt(getIndex(n)) == n` is stated only when the node is sortable or unsorted. `getChildAt` tests `!sortable || !sorted`, but `getIndex` tests only `sorted`, so after `setSortable(false)` on a sorted node the two disagree. The source asks callers to call `setSortable` only before the node is attached.
- SortableNode.SortableTreeTableNode.ConvertRowIndexToModel: when sorted, an index outside the view range is excluded by the precondition, where Java would throw `ArrayIndexOutOfBoundsException`.
- SortableNode.SortableTreeTableNode.ConvertRowIndexToView: when sorted, an index below -1 is excluded by the precondition, where Java would throw `ArrayIndexOutOfBoundsException`.
