/** Keyed rows in model order, their sorted order under CompareTo, and the
    view-to-model / model-to-view index pair a sorted node caches. */
module RowOrder {
  import opened Comparator

  /** One row per key, numbered in model order 0..|keys|-1. */
  function BuildRows(keys: seq<Option<int>>): seq<Row> {
    seq(|keys|, i requires 0 <= i < |keys| => Row(keys[i], i))
  }

  /** The keys of a row sequence, in its order. */
  function RowKeys(s: seq<Row>): seq<Option<int>> {
    seq(|s|, i requires 0 <= i < |s| => s[i].key)
  }

  /** Every row of `s` names a model position below `n`. */
  predicate InRange(s: seq<Row>, n: int) {
    forall i :: 0 <= i < |s| ==> 0 <= s[i].modelIndex < n
  }

  /** `s` is in the order CompareTo prescribes. */
  predicate Sorted(ascending: bool, s: seq<Row>) {
    forall i, j :: 0 <= i < j < |s| ==> AtMost(ascending, s[i], s[j])
  }

  /** Keys that already stand in the sort's key order. */
  predicate KeysOrdered(ascending: bool, keys: seq<Option<int>>) {
    forall i, j :: 0 <= i < j < |keys| ==> !DirectedKeyLess(ascending, keys[j], keys[i])
  }

  /** `x` inserted into `s` before the first row it does not sort after. */
  function Insert(ascending: bool, x: Row, s: seq<Row>): (r: seq<Row>)
    ensures multiset(r) == multiset(s) + multiset{x}
    ensures |r| == |s| + 1
  {
    if s == [] then [x]
    else if AtMost(ascending, x, s[0]) then [x] + s
    else
      assert s == [s[0]] + s[1..];
      [s[0]] + Insert(ascending, x, s[1..])
  }

  lemma {:induction false} InsertSorted(ascending: bool, x: Row, s: seq<Row>)
    requires Sorted(ascending, s)
    ensures Sorted(ascending, Insert(ascending, x, s))
  {
    if s == [] {
    } else if AtMost(ascending, x, s[0]) {
      var r := [x] + s;
      forall i, j | 0 <= i < j < |r| ensures AtMost(ascending, r[i], r[j]) {
        if i == 0 {
          if j > 1 { AtMostTransitive(ascending, x, s[0], s[j - 1]); }
        } else {
          assert r[i] == s[i - 1] && r[j] == s[j - 1];
        }
      }
    } else {
      var tail := s[1..];
      assert Sorted(ascending, tail) by {
        forall i, j | 0 <= i < j < |tail| ensures AtMost(ascending, tail[i], tail[j]) {
          assert tail[i] == s[i + 1] && tail[j] == s[j + 1];
        }
      }
      InsertSorted(ascending, x, tail);
      var t := Insert(ascending, x, tail);
      var r := [s[0]] + t;
      forall i, j | 0 <= i < j < |r| ensures AtMost(ascending, r[i], r[j]) {
        if i == 0 {
          var y := t[j - 1];
          assert y in multiset(t);
          if y == x {
            BeforeIsStrictTotalOrder(ascending, s[0], x, x);
          } else {
            assert y in multiset(tail);
            var k :| 0 <= k < |tail| && tail[k] == y;
            assert s[k + 1] == y;
          }
        } else {
          assert r[i] == t[i - 1] && r[j] == t[j - 1];
        }
      }
    }
  }

  /** The sorted order of a row sequence (insertion sort). It stands in
      for whatever sort the node's implementation uses: SortedUnique shows
      every sorted permutation of the rows is this one. */
  function SortRows(ascending: bool, s: seq<Row>): (r: seq<Row>)
    ensures |r| == |s|
    ensures multiset(r) == multiset(s)
    ensures Sorted(ascending, r)
  {
    if s == [] then []
    else
      var rest := SortRows(ascending, s[1..]);
      InsertSorted(ascending, s[0], rest);
      assert s == [s[0]] + s[1..];
      Insert(ascending, s[0], rest)
  }

  /** The in-place array sort of the rows (Arrays.sort in the source). */
  method SortInPlace(ascending: bool, a: array<Row>)
    modifies a
    ensures a[..] == SortRows(ascending, old(a[..]))
  {
    var s := SortRows(ascending, a[..]);
    forall k | 0 <= k < a.Length {
      a[k] := s[k];
    }
  }

  lemma SortedTail(ascending: bool, s: seq<Row>)
    requires Sorted(ascending, s) && s != []
    ensures Sorted(ascending, s[1..])
  {
    var tail := s[1..];
    forall i, j | 0 <= i < j < |tail| ensures AtMost(ascending, tail[i], tail[j]) {
      assert tail[i] == s[i + 1] && tail[j] == s[j + 1];
    }
  }

  /** A sorted sequence starts with a row that sorts no later than any row
      it holds. */
  lemma SortedHeadLeast(ascending: bool, s: seq<Row>, x: Row)
    requires Sorted(ascending, s) && x in multiset(s)
    ensures AtMost(ascending, s[0], x)
  {
    var k :| 0 <= k < |s| && s[k] == x;
    if k > 0 {
      assert AtMost(ascending, s[0], s[k]);
    } else {
      BeforeIsStrictTotalOrder(ascending, x, x, x);
    }
  }

  /** Two sequences sorted by CompareTo that hold the same rows are equal:
      the sorted order is independent of the algorithm and of its
      stability, and sorting twice gives the same result. */
  lemma {:induction false} SortedUnique(ascending: bool, s: seq<Row>, t: seq<Row>)
    requires Sorted(ascending, s) && Sorted(ascending, t)
    requires multiset(s) == multiset(t)
    ensures s == t
    decreases |s|
  {
    assert |s| == |multiset(s)| == |multiset(t)| == |t|;
    if s != [] {
      assert s[0] in multiset(s) && t[0] in multiset(t);
      SortedHeadLeast(ascending, t, s[0]);
      SortedHeadLeast(ascending, s, t[0]);
      BeforeIsStrictTotalOrder(ascending, s[0], t[0], s[0]);
      assert s == [s[0]] + s[1..] && t == [t[0]] + t[1..];
      assert multiset(s) == multiset{s[0]} + multiset(s[1..]);
      assert multiset(t) == multiset{t[0]} + multiset(t[1..]);
      assert s[0] == t[0];
      assert multiset(s[1..]) == multiset(s) - multiset{s[0]};
      assert multiset(t[1..]) == multiset(t) - multiset{t[0]};
      SortedTail(ascending, s);
      SortedTail(ascending, t);
      SortedUnique(ascending, s[1..], t[1..]);
    }
  }

  /** Any sorted permutation of the rows is what SortRows computes, so any
      correct sort algorithm yields the same viewToModel. */
  lemma SortedPermutationIsSortRows(ascending: bool, b: seq<Row>, e: seq<Row>)
    requires Sorted(ascending, e) && multiset(e) == multiset(b)
    ensures SortRows(ascending, b) == e
  {
    SortedUnique(ascending, SortRows(ascending, b), e);
  }

  lemma TwoOccurrences(s: seq<Row>, i: int, j: int)
    requires 0 <= i < j < |s| && s[i] == s[j]
    ensures multiset(s)[s[i]] >= 2
  {
    assert s == s[..j] + [s[j]] + s[j + 1..];
    assert s[..j][i] == s[i];
    assert multiset(s) == multiset(s[..j]) + multiset{s[j]} + multiset(s[j + 1..]);
  }

  /** Rows with pairwise distinct model indices hold no row twice. */
  lemma {:induction false} DistinctIndicesNoDuplicate(t: seq<Row>)
    requires forall i, j :: 0 <= i < j < |t| ==> t[i].modelIndex != t[j].modelIndex
    ensures forall x :: multiset(t)[x] <= 1
  {
    if t != [] {
      var tail := t[1..];
      assert forall i, j :: 0 <= i < j < |tail| ==> tail[i].modelIndex != tail[j].modelIndex by {
        forall i, j | 0 <= i < j < |tail| ensures tail[i].modelIndex != tail[j].modelIndex {
          assert tail[i] == t[i + 1] && tail[j] == t[j + 1];
        }
      }
      DistinctIndicesNoDuplicate(tail);
      assert t == [t[0]] + tail;
      forall k | 0 <= k < |tail| ensures tail[k] != t[0] {
        assert tail[k] == t[k + 1];
      }
      assert multiset(t) == multiset{t[0]} + multiset(tail);
    }
  }

  /** A permutation of the rows built from `keys` holds, at every position,
      a row whose key is that model position's key, and names every model
      position 0..|keys|-1 exactly once. */
  lemma RowsOfPermutation(keys: seq<Option<int>>, s: seq<Row>)
    requires multiset(s) == multiset(BuildRows(keys))
    ensures |s| == |keys|
    ensures InRange(s, |keys|)
    ensures forall i :: 0 <= i < |s| ==> s[i].key == keys[s[i].modelIndex]
    ensures forall i, j :: 0 <= i < |s| && 0 <= j < |s| && i != j ==> s[i].modelIndex != s[j].modelIndex
    ensures forall m :: 0 <= m < |keys| ==> Row(keys[m], m) in s
  {
    var t := BuildRows(keys);
    assert |s| == |multiset(s)| == |multiset(t)| == |t|;
    forall i | 0 <= i < |s| ensures 0 <= s[i].modelIndex < |keys| && s[i].key == keys[s[i].modelIndex] {
      assert s[i] in multiset(t);
      var k :| 0 <= k < |t| && t[k] == s[i];
    }
    DistinctIndicesNoDuplicate(t);
    forall i, j | 0 <= i < |s| && 0 <= j < |s| && i != j ensures s[i].modelIndex != s[j].modelIndex {
      if s[i].modelIndex == s[j].modelIndex {
        assert s[i] == s[j];
        if i < j { TwoOccurrences(s, i, j); } else { TwoOccurrences(s, j, i); }
        assert false;
      }
    }
    forall m | 0 <= m < |keys| ensures Row(keys[m], m) in s {
      assert t[m] in multiset(s);
    }
  }

  /** What a sort leaves in viewToModel, given the keys of the children
      in model order: each model index once, each row carrying its
      child's key. */
  lemma SortedRowsPermuteIndices(ascending: bool, keys: seq<Option<int>>)
    ensures var s := SortRows(ascending, BuildRows(keys));
      && |s| == |keys|
      && InRange(s, |keys|)
      && (forall i :: 0 <= i < |s| ==> s[i].key == keys[s[i].modelIndex])
      && (forall i, j :: 0 <= i < |s| && 0 <= j < |s| && i != j ==> s[i].modelIndex != s[j].modelIndex)
      && (forall m :: 0 <= m < |keys| ==> Row(keys[m], m) in s)
  {
    RowsOfPermutation(keys, SortRows(ascending, BuildRows(keys)));
  }

  /** Every pair of the sorted rows is in strict CompareTo order. */
  lemma SortedRowsStrict(ascending: bool, keys: seq<Option<int>>)
    ensures var s := SortRows(ascending, BuildRows(keys));
      forall i, j :: 0 <= i < j < |s| ==> CompareTo(ascending, s[i], s[j]) < 0
  {
    var s := SortRows(ascending, BuildRows(keys));
    RowsOfPermutation(keys, s);
    forall i, j | 0 <= i < j < |s| ensures CompareTo(ascending, s[i], s[j]) < 0 {
      assert AtMost(ascending, s[i], s[j]);
      assert s[i].modelIndex != s[j].modelIndex;
      BeforeIsStrictTotalOrder(ascending, s[i], s[j], s[i]);
    }
  }

  /** Rows with equal keys keep their model order, in either direction. */
  lemma SortedRowsStable(ascending: bool, keys: seq<Option<int>>)
    ensures var s := SortRows(ascending, BuildRows(keys));
      forall i, j :: 0 <= i < j < |s| && s[i].key == s[j].key ==> s[i].modelIndex < s[j].modelIndex
  {
    var s := SortRows(ascending, BuildRows(keys));
    RowsOfPermutation(keys, s);
    forall i, j | 0 <= i < j < |s| && s[i].key == s[j].key ensures s[i].modelIndex < s[j].modelIndex {
      assert AtMost(ascending, s[i], s[j]);
      assert s[i].modelIndex != s[j].modelIndex;
    }
  }

  /** Null keys come first in an ascending sort and last in a descending one. */
  lemma SortedRowsNullsPlacement(ascending: bool, keys: seq<Option<int>>)
    ensures var s := SortRows(ascending, BuildRows(keys));
      && (ascending ==> forall i, j :: 0 <= i < j < |s| && s[j].key.None? ==> s[i].key.None?)
      && (!ascending ==> forall i, j :: 0 <= i < j < |s| && s[i].key.None? ==> s[j].key.None?)
  {
    var s := SortRows(ascending, BuildRows(keys));
    forall i, j | 0 <= i < j < |s|
      ensures ascending && s[j].key.None? ==> s[i].key.None?
      ensures !ascending && s[i].key.None? ==> s[j].key.None?
    {
      assert AtMost(ascending, s[i], s[j]);
    }
  }

  /** The two index arrays of a sorted node: viewToModel (as rows) and
      modelToView are mutually inverse permutations of 0..n-1. */
  predicate InversePair(viewToModel: seq<Row>, modelToView: seq<int>) {
    && |viewToModel| == |modelToView|
    && (forall i :: 0 <= i < |viewToModel| ==>
          0 <= viewToModel[i].modelIndex < |modelToView| && modelToView[viewToModel[i].modelIndex] == i)
    && (forall k :: 0 <= k < |modelToView| ==>
          0 <= modelToView[k] < |viewToModel| && viewToModel[modelToView[k]].modelIndex == k)
  }

  /** The view-to-model rows determine the model-to-view array. */
  lemma InverseUnique(viewToModel: seq<Row>, m1: seq<int>, m2: seq<int>)
    requires InversePair(viewToModel, m1) && InversePair(viewToModel, m2)
    ensures m1 == m2
  {
    forall k | 0 <= k < |m1| ensures m1[k] == m2[k] {
      var i := m1[k];
      assert viewToModel[i].modelIndex == k;
    }
  }

  /** The children `cs` in the order the rows name them. */
  function Gather<C>(cs: seq<C>, rows: seq<Row>): (r: seq<C>)
    requires InRange(rows, |cs|)
    ensures |r| == |rows|
  {
    seq(|rows|, i requires 0 <= i < |rows| => cs[rows[i].modelIndex])
  }

  lemma GatherAppend<C>(cs: seq<C>, a: seq<Row>, b: seq<Row>)
    requires InRange(a, |cs|) && InRange(b, |cs|)
    ensures InRange(a + b, |cs|)
    ensures Gather(cs, a + b) == Gather(cs, a) + Gather(cs, b)
  {
    assert forall i :: 0 <= i < |a + b| ==> (a + b)[i] == if i < |a| then a[i] else b[i - |a|];
  }

  /** Taking the row at `k` out of `t` takes its child out of the gathered
      children. */
  lemma GatherRemove<C>(cs: seq<C>, t: seq<Row>, k: int)
    requires InRange(t, |cs|) && 0 <= k < |t|
    ensures InRange(t[..k] + t[k + 1..], |cs|)
    ensures multiset(t) == multiset(t[..k] + t[k + 1..]) + multiset{t[k]}
    ensures multiset(Gather(cs, t)) == multiset(Gather(cs, t[..k] + t[k + 1..])) + multiset{cs[t[k].modelIndex]}
  {
    var before, after := t[..k], t[k + 1..];
    assert t == before + [t[k]] + after;
    assert InRange(before, |cs|) && InRange(after, |cs|) by {
      assert forall i :: 0 <= i < |before| ==> before[i] == t[i];
      assert forall i :: 0 <= i < |after| ==> after[i] == t[k + 1 + i];
    }
    GatherAppend(cs, before, after);
    GatherAppend(cs, before, [t[k]]);
    GatherAppend(cs, before + [t[k]], after);
  }

  /** Taking one copy of `x` out of two equal multisets leaves equal ones. */
  lemma MultisetCancel<T>(a: multiset<T>, b: multiset<T>, x: T)
    requires a + multiset{x} == b + multiset{x}
    ensures a == b
  {
    forall y ensures a[y] == b[y] {
      assert (a + multiset{x})[y] == (b + multiset{x})[y];
    }
  }

  /** Gathering by two permutations of the same rows gives two
      permutations of the same children. */
  lemma {:induction false} GatherMultiset<C>(cs: seq<C>, s: seq<Row>, t: seq<Row>)
    requires multiset(s) == multiset(t)
    requires InRange(s, |cs|) && InRange(t, |cs|)
    ensures multiset(Gather(cs, s)) == multiset(Gather(cs, t))
    decreases |s|
  {
    assert |s| == |multiset(s)| == |multiset(t)| == |t|;
    if s != [] {
      assert s[0] in multiset(t);
      var k :| 0 <= k < |t| && t[k] == s[0];
      var rest, u := s[1..], t[..k] + t[k + 1..];
      GatherRemove(cs, t, k);
      GatherRemove(cs, s, 0);
      assert s[..0] + s[1..] == rest;
      MultisetCancel(multiset(rest), multiset(u), s[0]);
      GatherMultiset(cs, rest, u);
    }
  }

  /** Reordering children by a sort of their rows keeps every child. */
  lemma GatherPermutes<C>(cs: seq<C>, keys: seq<Option<int>>, s: seq<Row>)
    requires |keys| == |cs|
    requires multiset(s) == multiset(BuildRows(keys))
    ensures InRange(s, |cs|)
    ensures multiset(Gather(cs, s)) == multiset(cs)
  {
    RowsOfPermutation(keys, s);
    var t := BuildRows(keys);
    GatherMultiset(cs, s, t);
    assert Gather(cs, t) == cs;
  }

  /** After a presort the children's keys stand in the sort's key order. */
  lemma SortedRowKeysOrdered(ascending: bool, keys: seq<Option<int>>)
    ensures KeysOrdered(ascending, RowKeys(SortRows(ascending, BuildRows(keys))))
  {
    var s := SortRows(ascending, BuildRows(keys));
    forall i, j | 0 <= i < j < |s| ensures !DirectedKeyLess(ascending, s[j].key, s[i].key) {
      assert AtMost(ascending, s[i], s[j]);
    }
  }

  /** Keys already in the sort's key order sort to the identity mapping. */
  lemma OrderedKeysSortToIdentity(ascending: bool, keys: seq<Option<int>>)
    requires KeysOrdered(ascending, keys)
    ensures SortRows(ascending, BuildRows(keys)) == BuildRows(keys)
  {
    var b := BuildRows(keys);
    assert Sorted(ascending, b) by {
      forall i, j | 0 <= i < j < |b| ensures AtMost(ascending, b[i], b[j]) {
        assert b[i] == Row(keys[i], i) && b[j] == Row(keys[j], j);
      }
    }
    SortedUnique(ascending, SortRows(ascending, b), b);
  }

  /** The rows in reverse order. */
  function Reverse(s: seq<Row>): (r: seq<Row>)
    ensures |r| == |s|
  {
    if s == [] then [] else Reverse(s[1..]) + [s[0]]
  }

  lemma {:induction false} ReverseProperties(s: seq<Row>)
    ensures forall i :: 0 <= i < |s| ==> Reverse(s)[i] == s[|s| - 1 - i]
    ensures multiset(Reverse(s)) == multiset(s)
  {
    if s != [] {
      ReverseProperties(s[1..]);
      assert s == [s[0]] + s[1..];
    }
  }

  /** With pairwise distinct keys, the descending order is the ascending
      order reversed. */
  lemma DescendingIsReversedAscending(keys: seq<Option<int>>)
    requires forall i, j :: 0 <= i < j < |keys| ==> keys[i] != keys[j]
    ensures SortRows(false, BuildRows(keys)) == Reverse(SortRows(true, BuildRows(keys)))
  {
    var b := BuildRows(keys);
    var up := SortRows(true, b);
    var down := Reverse(up);
    RowsOfPermutation(keys, up);
    ReverseProperties(up);
    var n := |up|;
    assert Sorted(false, down) by {
      forall i, j | 0 <= i < j < n ensures AtMost(false, down[i], down[j]) {
        var x, y := up[n - 1 - i], up[n - 1 - j];
        assert AtMost(true, y, x);
        assert x.key == keys[x.modelIndex] && y.key == keys[y.modelIndex];
        assert x.modelIndex != y.modelIndex;
        assert x.key != y.key by {
          if x.modelIndex < y.modelIndex {
            assert keys[x.modelIndex] != keys[y.modelIndex];
          } else {
            assert keys[y.modelIndex] != keys[x.modelIndex];
          }
        }
      }
    }
    SortedUnique(false, SortRows(false, b), down);
  }
}
