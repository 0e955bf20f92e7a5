/** The memtable's ordered map as a sequence in iteration order, its lookup and
    the scan that keeps the newest entry of each key. */
module MemTableSpec {
  import opened Wrappers
  import opened Bytes
  import opened Rows
  import opened Records
  import opened MemTableKeys

  datatype Entry = Entry(ik: InsertKey, row: Row)

  const MAX: u64 := TWO64 - 1

  /** `std::map::insert`: in order, and not at all when an equivalent key is there. */
  function Insert(es: seq<Entry>, e: Entry): (r: seq<Entry>) {
    if es == [] then [e]
    else if Less(e.ik, es[0].ik) then [e] + es
    else if Less(es[0].ik, e.ik) then [es[0]] + Insert(es[1..], e)
    else es
  }

  /** The position of the first entry that is not below the search key. */
  function LowerBound(es: seq<Entry>, sk: SearchKey): (p: nat)
    ensures p <= |es|
  {
    if es == [] || !BelowSearch(es[0].ik, sk) then 0 else 1 + LowerBound(es[1..], sk)
  }

  /** Heterogeneous `std::map::find`: lower bound, then an equivalence check. */
  function Find(es: seq<Entry>, k: u64): Option<Row> {
    var p := LowerBound(es, SearchKey(k));
    if p == |es| || AboveSearch(SearchKey(k), es[p].ik) then None else Some(es[p].row)
  }

  /** The scan all three consumers of the memtable run: skip an entry whose key
      equals the previous one's. */
  function Scan(es: seq<Entry>, prev: u64): (rows: seq<Row>) {
    if es == [] then []
    else if es[0].ik.key == prev then Scan(es[1..], prev)
    else [es[0].row] + Scan(es[1..], es[0].ik.key)
  }

  /** Insert rows one after another, numbering them from `counter`. */
  function InsertAll(es: seq<Entry>, counter: nat, rows: seq<Row>): seq<Entry> {
    if rows == [] then es
    else
      var n := |rows| - 1;
      Insert(InsertAll(es, counter, rows[..n]), Entry(InsertKey(counter + n, rows[n].key), rows[n]))
  }

  /** The memtable that a sequence of logged rows builds. */
  function MemOf(rows: seq<Row>): seq<Entry> {
    InsertAll([], 0, rows)
  }

  /** The table a snapshot of that memtable writes; the scans start from MAX. */
  function TableOf(rows: seq<Row>): seq<Row> {
    Scan(MemOf(rows), MAX)
  }

  /** The rows are there, but they all carry the scans' initial key. */
  predicate SentinelOnly(rows: seq<Row>) {
    rows != [] && forall i | 0 <= i < |rows| :: rows[i].key == MAX
  }

  // ----- Invariants of the map -----

  ghost predicate Sorted(es: seq<Entry>) {
    es != [] ==> (forall e | e in es[1..] :: Less(es[0].ik, e.ik)) && Sorted(es[1..])
  }

  /** Every entry carries its own row's key and a counter below `n`. */
  ghost predicate Numbered(es: seq<Entry>, n: nat) {
    forall e | e in es :: e.ik.id < n && e.ik.key == e.row.key
  }

  lemma {:induction false} InsertContents(es: seq<Entry>, e: Entry, n: nat)
    requires Numbered(es, n) && e.ik.id >= n
    ensures |Insert(es, e)| == |es| + 1
    ensures forall x :: x in Insert(es, e) <==> x in es || x == e
  {
    if es != [] && !Less(e.ik, es[0].ik) {
      assert es[0] in es;
      InsertContents(es[1..], e, n);
      assert es == [es[0]] + es[1..];
    }
  }

  /** An equivalent key is already there: nothing is inserted. */
  lemma {:induction false} InsertEquivalent(es: seq<Entry>, e: Entry, i: nat)
    requires Sorted(es) && i < |es| && es[i].ik == e.ik
    ensures Insert(es, e) == es
  {
    if i > 0 {
      assert es[1..][i - 1] == es[i] && es[i] in es[1..];
      InsertEquivalent(es[1..], e, i - 1);
    }
  }

  /** An entry numbered above all others is added and the order stays. */
  lemma {:induction false} InsertSorted(es: seq<Entry>, e: Entry, n: nat)
    requires Sorted(es) && Numbered(es, n) && e.ik.id >= n
    ensures Sorted(Insert(es, e))
  {
    if es != [] {
      assert es[0] in es;
      assert Insert(es, e)[1..] == if Less(e.ik, es[0].ik) then es else Insert(es[1..], e);
      if !Less(e.ik, es[0].ik) {
        InsertContents(es[1..], e, n);
        InsertSorted(es[1..], e, n);
      } else {
        assert es == [es[0]] + es[1..];
      }
    }
  }

  lemma {:induction false} MemOfInvariant(rows: seq<Row>)
    ensures Sorted(MemOf(rows)) && Numbered(MemOf(rows), |rows|)
    ensures |MemOf(rows)| == |rows|
  {
    if rows != [] {
      var n := |rows| - 1;
      MemOfInvariant(rows[..n]);
      var e := Entry(InsertKey(n, rows[n].key), rows[n]);
      InsertContents(MemOf(rows[..n]), e, n);
      InsertSorted(MemOf(rows[..n]), e, n);
    }
  }

  /** Replaying rows into a memtable continues where it stands. */
  lemma {:induction false} ReplayContinues(a: seq<Row>, b: seq<Row>)
    ensures InsertAll(MemOf(a), |a|, b) == MemOf(a + b)
  {
    if b == [] {
      assert a + b == a;
    } else {
      var n := |b| - 1;
      ReplayContinues(a, b[..n]);
      assert (a + b)[..|a + b| - 1] == a + b[..n];
    }
  }

  // ----- Lookup -----

  /** The first entry in map order with key `k`. */
  function FirstEntry(es: seq<Entry>, k: u64): Option<Row> {
    if es == [] then None
    else if es[0].ik.key == k then Some(es[0].row) else FirstEntry(es[1..], k)
  }

  lemma {:induction false} FindIsFirst(es: seq<Entry>, k: u64)
    requires Sorted(es)
    ensures Find(es, k) == FirstEntry(es, k)
  {
    if es != [] {
      FindIsFirst(es[1..], k);
      if AboveSearch(SearchKey(k), es[0].ik) {
        assert es == [es[0]] + es[1..];
        NoneAbove(es, k);
      }
    }
  }

  lemma {:induction false} NoneAbove(es: seq<Entry>, k: u64)
    requires forall e | e in es :: e.ik.key > k
    ensures FirstEntry(es, k) == None
  {
    if es != [] {
      NoneAbove(es[1..], k);
    }
  }

  lemma {:induction false} FirstAfterInsert(es: seq<Entry>, e: Entry, n: nat, k: u64)
    requires Numbered(es, n) && e.ik.id >= n
    ensures FirstEntry(Insert(es, e), k)
         == if k == e.ik.key then Some(e.row) else FirstEntry(es, k)
  {
    if es != [] && !Less(e.ik, es[0].ik) {
      assert es[0] in es;
      FirstAfterInsert(es[1..], e, n, k);
    }
  }

  lemma {:induction false} FirstIsNewest(rows: seq<Row>, k: u64)
    ensures FirstEntry(MemOf(rows), k) == Newest(rows, k)
  {
    if rows != [] {
      var n := |rows| - 1;
      MemOfInvariant(rows[..n]);
      FirstIsNewest(rows[..n], k);
      FirstAfterInsert(MemOf(rows[..n]), Entry(InsertKey(n, rows[n].key), rows[n]), n, k);
    }
  }

  /** Lookup returns the row inserted last for the key, whatever came between. */
  lemma LookupIsNewest(rows: seq<Row>, k: u64)
    ensures Find(MemOf(rows), k) == Newest(rows, k)
  {
    MemOfInvariant(rows);
    FindIsFirst(MemOf(rows), k);
    FirstIsNewest(rows, k);
  }

  // ----- The scan -----

  lemma {:induction false} ScanFinds(es: seq<Entry>, prev: u64, n: nat, k: u64)
    requires Numbered(es, n) && k != prev
    ensures First(Scan(es, prev), k) == FirstEntry(es, k)
  {
    if es != [] {
      assert es[0] in es;
      if es[0].ik.key == prev {
        ScanFinds(es[1..], prev, n, k);
      } else if es[0].ik.key != k {
        ScanFinds(es[1..], es[0].ik.key, n, k);
      }
    }
  }

  /** Rows come out strictly above the previous key, in strictly increasing order. */
  lemma {:induction false} ScanIncreases(es: seq<Entry>, prev: u64, n: nat)
    requires Sorted(es) && Numbered(es, n) && (es != [] ==> prev <= es[0].ik.key)
    ensures StrictlyKeyed(Scan(es, prev))
    ensures forall r | r in Scan(es, prev) :: prev < r.key
    ensures prev == MAX ==> Scan(es, prev) == []
  {
    if es != [] {
      assert es[0] in es;
      assert |es| > 1 ==> es[1..][0] in es[1..];
      if es[0].ik.key == prev {
        ScanIncreases(es[1..], prev, n);
      } else {
        ScanIncreases(es[1..], es[0].ik.key, n);
        ConsKeyed(es[0].row, Scan(es[1..], es[0].ik.key));
      }
    }
  }

  /** With MAX as the initial key the scan is lost only when MAX comes first. */
  lemma TableShape(es: seq<Entry>, n: nat)
    requires Sorted(es) && Numbered(es, n)
    ensures StrictlyKeyed(Scan(es, MAX))
    ensures es != [] && es[0].ik.key == MAX ==> Scan(es, MAX) == []
    ensures es != [] && es[0].ik.key != MAX ==>
              Scan(es, MAX) == [es[0].row] + Scan(es[1..], es[0].ik.key)
  {
    if es != [] {
      assert es[0] in es;
      if es[0].ik.key == MAX {
        ScanIncreases(es, MAX, n);
      } else {
        assert |es| > 1 ==> es[1..][0] in es[1..];
        ScanIncreases(es[1..], es[0].ik.key, n);
        ConsKeyed(es[0].row, Scan(es[1..], es[0].ik.key));
      }
    }
  }

  /** The map's first key is MAX exactly when every row's is. */
  lemma FirstKeyIsMax(rows: seq<Row>)
    requires rows != []
    ensures |MemOf(rows)| == |rows|
    ensures MemOf(rows)[0].ik.key == MAX <==> SentinelOnly(rows)
  {
    var es := MemOf(rows);
    MemOfInvariant(rows);
    assert es[0] in es;
    FirstIsNewest(rows, es[0].ik.key);
    if es[0].ik.key == MAX {
      forall i | 0 <= i < |rows| ensures rows[i].key == MAX {
        assert rows[i] in rows;
        if rows[i].key != MAX {
          FirstIsNewest(rows, rows[i].key);
          NoneBelow(es, rows[i].key);
        }
      }
    }
  }

  lemma {:induction false} NoneBelow(es: seq<Entry>, k: u64)
    requires Sorted(es) && es != [] && k < es[0].ik.key
    ensures FirstEntry(es, k) == None
  {
    if |es| > 1 {
      assert es[1..][0] in es[1..];
      NoneBelow(es[1..], k);
    }
  }

  /** The exact content of a snapshot's table, key by key. */
  lemma TableLookup(rows: seq<Row>, k: u64)
    ensures StrictlyKeyed(TableOf(rows))
    ensures First(TableOf(rows), k) == if SentinelOnly(rows) then None else Newest(rows, k)
  {
    var es, n := MemOf(rows), |rows|;
    MemOfInvariant(rows);
    TableShape(es, n);
    FirstIsNewest(rows, k);
    if rows != [] {
      FirstKeyIsMax(rows);
      if !SentinelOnly(rows) {
        if k == MAX {
          ScanFinds(es[1..], es[0].ik.key, n, k);
        } else {
          ScanFinds(es, MAX, n, k);
        }
      }
    }
  }

  /** A snapshot keeps the newest row of every key, except when MAX is the only
      key, and then it loses it. */
  lemma SnapshotKeepsNewest(rows: seq<Row>)
    ensures (forall k :: First(TableOf(rows), k) == Newest(rows, k)) <==> !SentinelOnly(rows)
  {
    forall k ensures First(TableOf(rows), k) == if SentinelOnly(rows) then None else Newest(rows, k) {
      TableLookup(rows, k);
    }
    if SentinelOnly(rows) {
      assert rows[0] in rows && rows[0].key == MAX;
      assert First(TableOf(rows), MAX) != Newest(rows, MAX);
    }
  }
}
