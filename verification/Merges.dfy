/** Merging two tables: `std::merge` over row pointers, then `std::unique` by key. */
module Merges {
  import opened Wrappers
  import opened Bytes
  import opened Rows

  /** A shared row and where it lives. */
  datatype RowRef = RowRef(address: nat, row: Row)

  type Comparator = (RowRef, RowRef) -> bool

  /** `std::merge`: takes from the second range only what is less. */
  function Merge(less: Comparator, a: seq<RowRef>, b: seq<RowRef>): (r: seq<RowRef>)
    ensures |r| == |a| + |b|
  {
    if a == [] then b
    else if b == [] then a
    else if less(b[0], a[0]) then [b[0]] + Merge(less, a, b[1..])
    else [a[0]] + Merge(less, a[1..], b)
  }

  /** `std::unique`: keeps the first of every group of neighbours with equal keys. */
  function Unique(rows: seq<RowRef>): (r: seq<RowRef>)
    ensures rows != [] ==> r != [] && r[0] == rows[0]
    ensures |r| <= |rows|
    decreases |rows|
  {
    if |rows| < 2 then rows
    else if rows[0].row.key == rows[1].row.key then Unique([rows[0]] + rows[2..])
    else [rows[0]] + Unique(rows[1..])
  }

  function FirstRef(rows: seq<RowRef>, k: u64): Option<RowRef> {
    if rows == [] then None
    else if rows[0].row.key == k then Some(rows[0]) else FirstRef(rows[1..], k)
  }

  function Either(a: Option<RowRef>, b: Option<RowRef>): Option<RowRef> {
    if a.Some? then a else b
  }

  /** Keys never decrease. */
  ghost predicate KeySorted(rows: seq<RowRef>) {
    forall i, j | 0 <= i < j < |rows| :: rows[i].row.key <= rows[j].row.key
  }

  ghost predicate StrictlyKeySorted(rows: seq<RowRef>) {
    forall i, j | 0 <= i < j < |rows| :: rows[i].row.key < rows[j].row.key
  }

  /** What the call as written compares: the pointers. */
  function ByAddress(): Comparator {
    (x: RowRef, y: RowRef) => x.address < y.address
  }

  /** The comparator orders the rows of the two tables against each other by key. */
  ghost predicate AgreesWithKeys(less: Comparator, a: seq<RowRef>, b: seq<RowRef>) {
    forall i, j | 0 <= i < |a| && 0 <= j < |b| :: less(b[j], a[i]) <==> b[j].row.key < a[i].row.key
  }

  // ----- Merging -----

  lemma {:induction false} MergeElements(less: Comparator, a: seq<RowRef>, b: seq<RowRef>, x: RowRef)
    ensures x in Merge(less, a, b) <==> x in a || x in b
  {
    if a != [] && b != [] {
      assert a == [a[0]] + a[1..] && b == [b[0]] + b[1..];
      if less(b[0], a[0]) {
        MergeElements(less, a, b[1..], x);
      } else {
        MergeElements(less, a[1..], b, x);
      }
    }
  }

  lemma ConsSorted(x: RowRef, rows: seq<RowRef>)
    requires KeySorted(rows) && forall y | y in rows :: x.row.key <= y.row.key
    ensures KeySorted([x] + rows)
  {
  }

  lemma {:induction false} MergeSorted(less: Comparator, a: seq<RowRef>, b: seq<RowRef>)
    requires KeySorted(a) && KeySorted(b) && AgreesWithKeys(less, a, b)
    ensures KeySorted(Merge(less, a, b))
  {
    if a != [] && b != [] {
      if less(b[0], a[0]) {
        MergeSorted(less, a, b[1..]);
        forall y | y in Merge(less, a, b[1..]) ensures b[0].row.key <= y.row.key {
          MergeElements(less, a, b[1..], y);
        }
        ConsSorted(b[0], Merge(less, a, b[1..]));
      } else {
        MergeSorted(less, a[1..], b);
        forall y | y in Merge(less, a[1..], b) ensures a[0].row.key <= y.row.key {
          MergeElements(less, a[1..], b, y);
        }
        ConsSorted(a[0], Merge(less, a[1..], b));
      }
    }
  }

  lemma {:induction false} NoneAbove(rows: seq<RowRef>, k: u64)
    requires forall i | 0 <= i < |rows| :: k < rows[i].row.key
    ensures FirstRef(rows, k).None?
  {
    if rows != [] {
      NoneAbove(rows[1..], k);
    }
  }

  /** On equal keys the first table's row comes first. */
  lemma {:induction false} MergeFirst(less: Comparator, a: seq<RowRef>, b: seq<RowRef>, k: u64)
    requires KeySorted(a) && KeySorted(b) && AgreesWithKeys(less, a, b)
    ensures FirstRef(Merge(less, a, b), k) == Either(FirstRef(a, k), FirstRef(b, k))
  {
    if a != [] && b != [] {
      if less(b[0], a[0]) {
        MergeFirst(less, a, b[1..], k);
        if b[0].row.key == k {
          NoneAbove(a, k);
        }
      } else {
        MergeFirst(less, a[1..], b, k);
      }
    }
  }

  // ----- Removing duplicates -----

  lemma {:induction false} UniqueFirst(rows: seq<RowRef>, k: u64)
    ensures FirstRef(Unique(rows), k) == FirstRef(rows, k)
    decreases |rows|
  {
    if |rows| >= 2 {
      assert rows == [rows[0]] + ([rows[1]] + rows[2..]);
      if rows[0].row.key == rows[1].row.key {
        var shorter := [rows[0]] + rows[2..];
        UniqueFirst(shorter, k);
        assert shorter[1..] == rows[2..] && rows[1..][1..] == rows[2..];
      } else {
        UniqueFirst(rows[1..], k);
      }
    }
  }

  lemma {:induction false} UniqueElements(rows: seq<RowRef>, x: RowRef)
    requires x in Unique(rows)
    ensures x in rows
    decreases |rows|
  {
    if |rows| >= 2 {
      assert rows == [rows[0]] + ([rows[1]] + rows[2..]);
      if rows[0].row.key == rows[1].row.key {
        UniqueElements([rows[0]] + rows[2..], x);
      } else if x != rows[0] {
        UniqueElements(rows[1..], x);
      }
    }
  }

  lemma {:induction false} UniqueStrict(rows: seq<RowRef>)
    requires KeySorted(rows)
    ensures StrictlyKeySorted(Unique(rows))
    decreases |rows|
  {
    if |rows| >= 2 {
      if rows[0].row.key == rows[1].row.key {
        UniqueStrict([rows[0]] + rows[2..]);
      } else {
        UniqueStrict(rows[1..]);
        forall y | y in Unique(rows[1..]) ensures rows[0].row.key < y.row.key {
          UniqueElements(rows[1..], y);
        }
      }
    }
  }

  // ----- The theorem and its edge -----

  /** For every comparator that orders the two tables' rows by key, the result has
      each key once and answers like the first table, then the second. */
  lemma MergeIsLeftBiasedUnion(less: Comparator, a: seq<RowRef>, b: seq<RowRef>)
    requires KeySorted(a) && KeySorted(b) && AgreesWithKeys(less, a, b)
    ensures LeftBiasedUnion(Unique(Merge(less, a, b)), a, b)
  {
    MergeSorted(less, a, b);
    UniqueStrict(Merge(less, a, b));
    forall k ensures FirstRef(Unique(Merge(less, a, b)), k) == Either(FirstRef(a, k), FirstRef(b, k)) {
      UniqueFirst(Merge(less, a, b), k);
      MergeFirst(less, a, b, k);
    }
  }

  /** The call as written compares addresses, and then the result may be unsorted. */
  lemma AddressesDecide(x: Row, y: Row)
    requires x.key < y.key
    ensures var a, b := [RowRef(1, y)], [RowRef(2, x)];
            KeySorted(a) && KeySorted(b) && !StrictlyKeySorted(Unique(Merge(ByAddress(), a, b)))
  {
    var a, b := [RowRef(1, y)], [RowRef(2, x)];
    assert Merge(ByAddress(), [], b) == b;
    assert Merge(ByAddress(), a, b) == [a[0], b[0]];
    assert Unique([b[0]]) == [b[0]];
    assert Unique([a[0], b[0]]) == [a[0]] + Unique([a[0], b[0]][1..]);
  }

  /** Every comparison the merge comes to takes a row whose key is not the greater. */
  ghost predicate InStep(less: Comparator, a: seq<RowRef>, b: seq<RowRef>) {
    a != [] && b != [] ==>
      if less(b[0], a[0]) then b[0].row.key <= a[0].row.key && InStep(less, a, b[1..])
      else a[0].row.key <= b[0].row.key && InStep(less, a[1..], b)
  }

  lemma ConsSortedExactly(x: RowRef, rows: seq<RowRef>)
    ensures KeySorted([x] + rows) <==> KeySorted(rows) && forall y | y in rows :: x.row.key <= y.row.key
  {
    var all := [x] + rows;
    assert forall i | 0 <= i < |rows| :: all[i + 1] == rows[i];
    if KeySorted(all) {
      forall i, j | 0 <= i < j < |rows| ensures rows[i].row.key <= rows[j].row.key {
        assert all[i + 1].row.key <= all[j + 1].row.key;
      }
      forall y | y in rows ensures x.row.key <= y.row.key {
        var i :| 0 <= i < |rows| && rows[i] == y;
        assert all[0].row.key <= all[i + 1].row.key;
      }
    }
  }

  lemma {:induction false} MergeSortedExactly(less: Comparator, a: seq<RowRef>, b: seq<RowRef>)
    requires KeySorted(a) && KeySorted(b)
    ensures KeySorted(Merge(less, a, b)) <==> InStep(less, a, b)
  {
    hide KeySorted;
    if a != [] && b != [] {
      assert a == [a[0]] + a[1..] && b == [b[0]] + b[1..];
      ConsSortedExactly(a[0], a[1..]);
      ConsSortedExactly(b[0], b[1..]);
      var x, a', b' := if less(b[0], a[0]) then b[0] else a[0],
                       if less(b[0], a[0]) then a else a[1..], if less(b[0], a[0]) then b[1..] else b;
      MergeSortedExactly(less, a', b');
      ConsSortedExactly(x, Merge(less, a', b'));
      MergeElements(less, a', b', a[0]);
      MergeElements(less, a', b', b[0]);
      forall y | y in Merge(less, a', b') ensures y in a || y in b {
        MergeElements(less, a', b', y);
      }
    }
  }

  lemma {:induction false} UniqueSortedExactly(rows: seq<RowRef>)
    ensures StrictlyKeySorted(Unique(rows)) <==> KeySorted(rows)
    decreases |rows|
  {
    hide KeySorted, StrictlyKeySorted;
    if KeySorted(rows) {
      UniqueStrict(rows);
    } else if |rows| < 2 {
      ShortIsSorted(rows);
    } else {
      var x := rows[0];
      HeadAndTail(rows);
      HeadAndTail(rows[1..]);
      assert rows[1..][1..] == rows[2..];
      ConsSortedExactly(x, rows[1..]);
      ConsSortedExactly(rows[1], rows[2..]);
      if x.row.key == rows[1].row.key {
        UniqueSortedExactly([x] + rows[2..]);
        ConsSortedExactly(x, rows[2..]);
      } else {
        UniqueSortedExactly(rows[1..]);
        StrictTail(x, Unique(rows[1..]));
      }
    }
  }

  lemma HeadAndTail(rows: seq<RowRef>)
    requires rows != []
    ensures rows == [rows[0]] + rows[1..]
  {
  }

  lemma ShortIsSorted(rows: seq<RowRef>)
    requires |rows| < 2
    ensures KeySorted(rows)
  {
  }

  lemma StrictTail(x: RowRef, rows: seq<RowRef>)
    requires rows != []
    ensures StrictlyKeySorted([x] + rows) ==> x.row.key < rows[0].row.key && StrictlyKeySorted(rows)
  {
    var all := [x] + rows;
    if StrictlyKeySorted(all) {
      assert all[0].row.key < all[1].row.key;
      forall i, j | 0 <= i < j < |rows| ensures rows[i].row.key < rows[j].row.key {
        assert all[i + 1].row.key < all[j + 1].row.key;
      }
    }
  }

  /** For every comparator, the one of the call as written included, the result has
      its keys in strictly increasing order exactly when the merge keeps in step. */
  lemma SortedExactly(less: Comparator, a: seq<RowRef>, b: seq<RowRef>)
    requires KeySorted(a) && KeySorted(b)
    ensures StrictlyKeySorted(Unique(Merge(less, a, b))) <==> InStep(less, a, b)
  {
    MergeSortedExactly(less, a, b);
    UniqueSortedExactly(Merge(less, a, b));
  }

  // ----- Which table answers -----

  /** The second table's row wins only by being less than the first table's. */
  function Winner(less: Comparator, a: Option<RowRef>, b: Option<RowRef>): Option<RowRef> {
    if a.Some? && b.Some? && less(b.value, a.value) then b else Either(a, b)
  }

  lemma {:induction false} MergeWinner(less: Comparator, a: seq<RowRef>, b: seq<RowRef>, k: u64)
    requires KeySorted(a) && KeySorted(b) && InStep(less, a, b)
    ensures FirstRef(Merge(less, a, b), k) == Winner(less, FirstRef(a, k), FirstRef(b, k))
  {
    if a != [] && b != [] {
      if less(b[0], a[0]) {
        MergeWinner(less, a, b[1..], k);
        if b[0].row.key == k && a[0].row.key != k {
          NoneAbove(a, k);
        }
      } else {
        MergeWinner(less, a[1..], b, k);
        if a[0].row.key == k && b[0].row.key != k {
          NoneAbove(b, k);
        }
      }
    }
  }

  /** The first table keeps its row of the key. */
  predicate Keeps(less: Comparator, a: seq<RowRef>, b: seq<RowRef>, k: u64) {
    FirstRef(a, k).Some? && FirstRef(b, k).Some? && less(FirstRef(b, k).value, FirstRef(a, k).value) ==>
      FirstRef(b, k) == FirstRef(a, k)
  }

  /** What the test expects of a merge: each key once, in order, answered by the
      first table before the second. */
  ghost predicate LeftBiasedUnion(r: seq<RowRef>, a: seq<RowRef>, b: seq<RowRef>) {
    StrictlyKeySorted(r) && forall k :: FirstRef(r, k) == Either(FirstRef(a, k), FirstRef(b, k))
  }

  /** For every comparator: exactly when the merge keeps in step and no common key's
      first row in the second table is less than its first row in the first. */
  lemma UnionExactly(less: Comparator, a: seq<RowRef>, b: seq<RowRef>)
    requires KeySorted(a) && KeySorted(b)
    ensures LeftBiasedUnion(Unique(Merge(less, a, b)), a, b)
       <==> InStep(less, a, b) && forall k :: Keeps(less, a, b, k)
  {
    hide InStep, FirstRef, StrictlyKeySorted, Merge, Unique, Keeps, KeySorted;
    SortedExactly(less, a, b);
    if InStep(less, a, b) {
      forall k
        ensures FirstRef(Unique(Merge(less, a, b)), k) == Either(FirstRef(a, k), FirstRef(b, k))
           <==> Keeps(less, a, b, k)
      {
        UniqueFirst(Merge(less, a, b), k);
        MergeWinner(less, a, b, k);
        WinnerKeeps(less, a, b, k);
      }
    }
  }

  lemma WinnerKeeps(less: Comparator, a: seq<RowRef>, b: seq<RowRef>, k: u64)
    ensures Winner(less, FirstRef(a, k), FirstRef(b, k)) == Either(FirstRef(a, k), FirstRef(b, k))
       <==> Keeps(less, a, b, k)
  {
    hide FirstRef;
  }

  // ----- The condition in terms of the tables alone -----

  ghost predicate Disjoint(a: seq<RowRef>, b: seq<RowRef>) {
    forall i, j | 0 <= i < |a| && 0 <= j < |b| :: a[i].row.key != b[j].row.key
  }

  /** Two rows meet when each follows, in its table, only rows that are below the
      other. Of two rows that meet the comparator picks the one with the smaller key. */
  ghost predicate PicksSmaller(less: Comparator, a: seq<RowRef>, b: seq<RowRef>) {
    forall i: nat, j: nat | i < |a| && j < |b| :: PicksAt(less, a, i, b, j)
  }

  predicate PicksAt(less: Comparator, a: seq<RowRef>, i: nat, b: seq<RowRef>, j: nat)
    requires i < |a| && j < |b|
  {
    Meet(a, i, b, j) ==> (less(b[j], a[i]) <==> b[j].row.key < a[i].row.key)
  }

  predicate Meet(a: seq<RowRef>, i: nat, b: seq<RowRef>, j: nat)
    requires i < |a| && j < |b|
  {
    && (i > 0 ==> a[i - 1].row.key < b[j].row.key)
    && (j > 0 ==> b[j - 1].row.key < a[i].row.key)
  }

  /** Once the smaller head is taken the pairs left to meet are those of the rest. */
  lemma MeetAfterFirst(less: Comparator, a: seq<RowRef>, b: seq<RowRef>)
    requires KeySorted(a) && KeySorted(b) && a != [] && b != [] && a[0].row.key < b[0].row.key
    ensures PicksSmaller(less, a, b) <==> !less(b[0], a[0]) && PicksSmaller(less, a[1..], b)
  {
    forall i: nat, j: nat | i < |a| && j < |b|
      ensures i > 0 ==> (PicksAt(less, a, i, b, j) <==> PicksAt(less, a[1..], i - 1, b, j))
      ensures i == 0 ==> (PicksAt(less, a, i, b, j) <==> j > 0 || !less(b[0], a[0]))
    {
    }
    OnlyHeadAndRest(less, a, b);
  }

  lemma MeetAfterSecond(less: Comparator, a: seq<RowRef>, b: seq<RowRef>)
    requires KeySorted(a) && KeySorted(b) && a != [] && b != [] && b[0].row.key < a[0].row.key
    ensures PicksSmaller(less, a, b) <==> less(b[0], a[0]) && PicksSmaller(less, a, b[1..])
  {
    forall i: nat, j: nat | i < |a| && j < |b|
      ensures j > 0 ==> (PicksAt(less, a, i, b, j) <==> PicksAt(less, a, i, b[1..], j - 1))
      ensures j == 0 ==> (PicksAt(less, a, i, b, j) <==> i > 0 || less(b[0], a[0]))
    {
    }
    OnlySecondHeadAndRest(less, a, b);
  }

  lemma OnlyHeadAndRest(less: Comparator, a: seq<RowRef>, b: seq<RowRef>)
    requires a != [] && b != []
    requires forall i: nat, j: nat | 0 < i < |a| && j < |b| ::
      PicksAt(less, a, i, b, j) <==> PicksAt(less, a[1..], i - 1, b, j)
    requires forall j: nat | j < |b| :: PicksAt(less, a, 0, b, j) <==> j > 0 || !less(b[0], a[0])
    ensures PicksSmaller(less, a, b) <==> !less(b[0], a[0]) && PicksSmaller(less, a[1..], b)
  {
    hide PicksAt;
    if PicksSmaller(less, a, b) {
      assert PicksAt(less, a, 0, b, 0);
      forall i: nat, j: nat | i < |a[1..]| && j < |b| ensures PicksAt(less, a[1..], i, b, j) {
        assert PicksAt(less, a, i + 1, b, j);
      }
    }
  }

  lemma OnlySecondHeadAndRest(less: Comparator, a: seq<RowRef>, b: seq<RowRef>)
    requires a != [] && b != []
    requires forall i: nat, j: nat | i < |a| && 0 < j < |b| ::
      PicksAt(less, a, i, b, j) <==> PicksAt(less, a, i, b[1..], j - 1)
    requires forall i: nat | i < |a| :: PicksAt(less, a, i, b, 0) <==> i > 0 || less(b[0], a[0])
    ensures PicksSmaller(less, a, b) <==> less(b[0], a[0]) && PicksSmaller(less, a, b[1..])
  {
    hide PicksAt;
    if PicksSmaller(less, a, b) {
      assert PicksAt(less, a, 0, b, 0);
      forall i: nat, j: nat | i < |a| && j < |b[1..]| ensures PicksAt(less, a, i, b[1..], j) {
        assert PicksAt(less, a, i, b, j + 1);
      }
    }
  }

  lemma {:induction false} InStepExactly(less: Comparator, a: seq<RowRef>, b: seq<RowRef>)
    requires KeySorted(a) && KeySorted(b) && Disjoint(a, b)
    ensures InStep(less, a, b) <==> PicksSmaller(less, a, b)
  {
    hide PicksSmaller;
    if a == [] || b == [] {
      NothingMeets(less, a, b);
    } else if a[0].row.key < b[0].row.key {
      MeetAfterFirst(less, a, b);
      InStepExactly(less, a[1..], b);
    } else {
      MeetAfterSecond(less, a, b);
      InStepExactly(less, a, b[1..]);
    }
  }

  lemma NothingMeets(less: Comparator, a: seq<RowRef>, b: seq<RowRef>)
    requires a == [] || b == []
    ensures PicksSmaller(less, a, b)
  {
  }

  /** For tables without a common key the condition speaks of the tables alone. */
  lemma DisjointSortedExactly(less: Comparator, a: seq<RowRef>, b: seq<RowRef>)
    requires KeySorted(a) && KeySorted(b) && Disjoint(a, b)
    ensures StrictlyKeySorted(Unique(Merge(less, a, b))) <==> PicksSmaller(less, a, b)
  {
    SortedExactly(less, a, b);
    InStepExactly(less, a, b);
  }

  /** On a common key it cannot: which of two equal rows goes first decides whether
      later rows are compared at all. With the same rows and the same order between
      the different keys, one comparator gives a sorted result and the other does not. */
  lemma TiesDecideWhoMeets(x: Row, y: Row)
    requires x.key < y.key
    ensures var a, b := [RowRef(1, x)], [RowRef(2, x), RowRef(0, y)];
            && StrictlyKeySorted(Unique(Merge(ByAddress(), a, b)))
            && !StrictlyKeySorted(Unique(Merge(ByAddress(), a[0 := RowRef(3, x)], b)))
  {
    var a, b, a' := [RowRef(1, x)], [RowRef(2, x), RowRef(0, y)], [RowRef(3, x)];
    SortedExactly(ByAddress(), a, b);
    SortedExactly(ByAddress(), a', b);
    assert a[1..] == [] && b[1..] == [RowRef(0, y)];
    assert a[0 := RowRef(3, x)] == a';
  }

  // ----- The object -----

  class Table {
    var rows: seq<RowRef>

    constructor (rows: seq<RowRef>)
      ensures this.rows == rows
    {
      this.rows := rows;
    }

    /** `SSTable::merge`, with the comparator that its call leaves out. */
    method MergeWith(other: Table, less: Comparator)
      modifies this
      ensures rows == Unique(Merge(less, old(rows), old(other.rows)))
      ensures KeySorted(old(rows)) && KeySorted(old(other.rows)) ==>
        (StrictlyKeySorted(rows) <==> InStep(less, old(rows), old(other.rows)))
      ensures KeySorted(old(rows)) && KeySorted(old(other.rows))
              && AgreesWithKeys(less, old(rows), old(other.rows)) ==>
        LeftBiasedUnion(rows, old(rows), old(other.rows))
    {
      hide InStep;
      if KeySorted(rows) && KeySorted(other.rows) {
        SortedExactly(less, rows, other.rows);
        if AgreesWithKeys(less, rows, other.rows) {
          MergeIsLeftBiasedUnion(less, rows, other.rows);
        }
      }
      var result := Merge(less, rows, other.rows);
      result := Unique(result);
      rows := result;
    }

    /** The call as written: it compares the pointers. */
    method MergeAsWritten(other: Table)
      modifies this
      ensures rows == Unique(Merge(ByAddress(), old(rows), old(other.rows)))
      ensures KeySorted(old(rows)) && KeySorted(old(other.rows)) ==>
        (LeftBiasedUnion(rows, old(rows), old(other.rows)) <==>
          InStep(ByAddress(), old(rows), old(other.rows))
          && forall k :: Keeps(ByAddress(), old(rows), old(other.rows), k))
    {
      hide InStep, Keeps, LeftBiasedUnion;
      if KeySorted(rows) && KeySorted(other.rows) {
        UnionExactly(ByAddress(), rows, other.rows);
      }
      MergeWith(other, ByAddress());
    }
  }
}
