/** When a read tells what the log says: the exact condition, step by step. */
module Coherence {
  import opened Wrappers
  import opened Bytes
  import opened Rows
  import opened Records
  import opened MemTableSpec
  import opened MemTables
  import opened Histories
  import opened Reads
  import opened Models

  /** What the log says about a key: its last row, if that is a put. */
  function Said(h: History, k: u64): Option<Row> {
    LiveOnly(Newest(h.Logged(), k))
  }

  ghost predicate Coherent(h: History) {
    forall k :: Seen(h, k) == Said(h, k)
  }

  lemma SaidSplits(h: History, k: u64)
    ensures Newest(h.Logged(), k) == OrElse(Newest(h.tail, k), Newest(Flatten(h.batches), k))
  {
    NewestOfConcat(Flatten(h.batches), h.tail, k);
  }

  lemma AppendReads(h: History, row: Row, k: u64)
    ensures Said(h.Append(row), k) == if row.key == k then LiveOnly(Some(row)) else Said(h, k)
    ensures Seen(h.Append(row), k)
         == if row.key != k then Seen(h, k)
            else if row.Live() then Some(row) else LiveOnly(DiskNewest(h.batches, k))
  {
    assert h.Append(row).Logged() == h.Logged() + [row];
    NewestAppend(h.Logged(), row, k);
    NewestAppend(h.tail, row, k);
  }

  /** A put never breaks coherence. */
  lemma PutCoherent(h: History, row: Row)
    requires Coherent(h) && row.Live()
    ensures Coherent(h.Append(row))
  {
    forall k ensures Seen(h.Append(row), k) == Said(h.Append(row), k) {
      AppendReads(h, row, k);
    }
  }

  /** A remove breaks it exactly when the newest row on disk is a put. */
  lemma RemoveCoherent(h: History, k: u64)
    requires Coherent(h)
    ensures Coherent(h.Append(RemoveRow(k))) <==> LiveOnly(DiskNewest(h.batches, k)).None?
  {
    forall x ensures Seen(h.Append(RemoveRow(k)), x)
                  == if x == k then LiveOnly(DiskNewest(h.batches, k)) else Seen(h, x)
             ensures Said(h.Append(RemoveRow(k)), x) == if x == k then None else Said(h, x) {
      AppendReads(h, RemoveRow(k), x);
    }
    assert Seen(h, k) == Said(h, k);
    if Coherent(h.Append(RemoveRow(k))) {
      assert Seen(h.Append(RemoveRow(k)), k) == Said(h.Append(RemoveRow(k)), k);
    }
  }

  lemma CutReads(h: History, k: u64)
    ensures Said(h.Cut(), k) == Said(h, k)
    ensures Seen(h.Cut(), k)
         == LiveOnly(if SentinelOnly(h.tail) then DiskNewest(h.batches, k)
                     else OrElse(Newest(h.tail, k), DiskNewest(h.batches, k)))
  {
    assert h.Cut().batches[..|h.batches|] == h.batches;
    assert h.Cut().Logged() == h.Logged();
    DiskNewestIs(h.batches, h.tail, k);
  }

  /** A snapshot breaks it exactly when MAX is the memtable's only key and the
      disk does not happen to hold the same answer for MAX already. */
  lemma CutCoherent(h: History)
    requires Coherent(h)
    ensures Coherent(h.Cut()) <==>
      (SentinelOnly(h.tail) ==> LiveOnly(DiskNewest(h.batches, MAX)) == Said(h, MAX))
  {
    forall k | !(SentinelOnly(h.tail) && k == MAX) ensures Seen(h.Cut(), k) == Said(h.Cut(), k) {
      CutReads(h, k);
      SaidSplits(h, k);
      assert Seen(h, k) == Said(h, k);
    }
    CutReads(h, MAX);
    if Coherent(h.Cut()) {
      assert Seen(h.Cut(), MAX) == Said(h.Cut(), MAX);
    }
  }

  lemma NewIsCoherent()
    ensures Coherent(NEW_HISTORY)
  {
  }

  // ----- Reads deliver what was logged -----

  lemma {:induction false} DiskInLog(h: History, batches: seq<seq<Row>>, k: u64)
    requires batches <= h.batches && DiskNewest(batches, k).Some?
    ensures DiskNewest(batches, k).value in h.Logged()
  {
    hide TableOf;
    var n := |batches| - 1;
    TableLookup(batches[n], k);
    if First(TableOf(batches[n]), k).Some? {
      BatchInLog(h.batches, n, DiskNewest(batches, k).value);
    } else {
      DiskInLog(h, batches[..n], k);
    }
  }

  lemma {:induction false} BatchInLog(batches: seq<seq<Row>>, i: nat, row: Row)
    requires i < |batches| && row in batches[i]
    ensures row in Flatten(batches)
  {
    if i < |batches| - 1 {
      BatchInLog(batches[..|batches| - 1], i, row);
    }
  }

  /** Whatever a read delivers was logged. */
  lemma SeenInLog(h: History, k: u64)
    ensures Seen(h, k).Some? ==> Seen(h, k).value in h.Logged() && Seen(h, k).value.key == k
    ensures Seen(h, k).Some? ==> Seen(h, k).value.Live()
  {
    if DiskNewest(h.batches, k).Some? {
      DiskInLog(h, h.batches, k);
      DiskKey(h.batches, k);
    }
  }

  lemma {:induction false} DiskKey(batches: seq<seq<Row>>, k: u64)
    requires DiskNewest(batches, k).Some?
    ensures DiskNewest(batches, k).value.key == k
  {
    hide TableOf;
    var n := |batches| - 1;
    if First(TableOf(batches[n]), k).None? {
      DiskKey(batches[..n], k);
    }
  }
}
