/** The size the memtable tracks: what it bounds, and what bounds it. */
module Sizes {
  import opened Bytes
  import opened Rows
  import opened MemTableKeys
  import opened MemTableSpec
  import opened SSTableIndexes
  import opened MemTables
  import opened EngineSpec
  import opened Histories
  import opened Reads
  import opened Models
  import opened Refinement

  function EntriesSize(es: seq<Entry>): nat {
    if es == [] then 0 else RowSize(es[0].row) + EntriesSize(es[1..])
  }

  lemma {:induction false} InsertSize(es: seq<Entry>, e: Entry, n: nat)
    requires Numbered(es, n) && e.ik.id >= n
    ensures EntriesSize(Insert(es, e)) == EntriesSize(es) + RowSize(e.row)
  {
    if es != [] {
      assert es[0] in es;
      if !Less(e.ik, es[0].ik) {
        InsertSize(es[1..], e, n);
      }
    }
  }

  lemma {:induction false} MemOfSize(rows: seq<Row>)
    ensures EntriesSize(MemOf(rows)) == TotalSize(rows)
  {
    if rows != [] {
      var n := |rows| - 1;
      MemOfSize(rows[..n]);
      MemOfInvariant(rows[..n]);
      InsertSize(MemOf(rows[..n]), Entry(InsertKey(n, rows[n].key), rows[n]), n);
      assert rows == rows[..n] + [rows[n]];
      TotalSizeConcat(rows[..n], [rows[n]]);
    }
  }

  lemma {:induction false} ScanSize(es: seq<Entry>, prev: u64)
    ensures TotalSize(Scan(es, prev)) <= EntriesSize(es)
  {
    if es != [] {
      if es[0].ik.key == prev {
        ScanSize(es[1..], prev);
      } else {
        ScanSize(es[1..], es[0].ik.key);
        assert ([es[0].row] + Scan(es[1..], es[0].ik.key))[1..] == Scan(es[1..], es[0].ik.key);
      }
    }
  }

  /** The tracked size bounds the segment file from above. */
  lemma SegmentWithinTracked(h: History)
    ensures MemStateOf(h).size == TotalSize(h.tail)
    ensures |SerializeAll(TableOf(h.tail))| <= MemStateOf(h).size
  {
    hide Serialize, SerializeAll, Scan;
    MemOfSize(h.tail);
    ScanSize(MemOf(h.tail), MAX);
  }

  /** A batch below 2^32 bytes has hints that fit. */
  lemma SmallBatchFits(batch: seq<Row>)
    requires TotalSize(batch) < TWO32
    ensures HintsFit(TableOf(batch))
  {
    hide TableOf;
    SegmentWithinTracked(History([], batch));
    var table := TableOf(batch);
    assert TotalSize(table) < TWO32;
    forall i | 0 <= i < |table| ensures TotalSize(table[..i]) < TWO32 && RowSize(table[i]) < TWO32 {
      assert table == table[..i] + ([table[i]] + table[i + 1..]);
      TotalSizeConcat(table[..i], [table[i]] + table[i + 1..]);
      assert ([table[i]] + table[i + 1..])[1..] == table[i + 1..];
    }
  }

  // ----- What bounds the tracked size -----

  /** Removes since the last put that reached the memtable: only a put compares
      the size with the limit. */
  function Unchecked(env: Env, ops: seq<Op>): nat {
    if ops == [] then 0
    else
      var before, last := ops[..|ops| - 1], ops[|ops| - 1];
      if last.RemoveOp? then Unchecked(env, before) + 1
      else if env.compress(last.value).None? then Unchecked(env, before)
      else 0
  }

  /** The tracked size stays below the limit but for 35 bytes per such remove. */
  lemma {:induction false} TrackedBelowLimit(env: Env, ops: seq<Op>)
    requires env.limit > 0
    ensures TotalSize(HistoryOf(env, ops).tail) < env.limit + 35 * Unchecked(env, ops)
  {
    if ops != [] {
      var before, last := ops[..|ops| - 1], ops[|ops| - 1];
      TrackedBelowLimit(env, before);
      if last.RemoveOp? {
        TotalSizeConcat(HistoryOf(env, before).tail, [RemoveRow(last.key)]);
        assert TotalSize([RemoveRow(last.key)]) == 35;
      }
    }
  }

  /** No run of removes exceeds `removes`, no stored value is longer than `longest`. */
  ghost predicate Modest(env: Env, ops: seq<Op>, removes: nat, longest: nat) {
    && (forall n | 0 <= n <= |ops| :: Unchecked(env, ops[..n]) <= removes)
    && (forall n | 0 <= n < |ops| && ops[n].PutOp? && env.compress(ops[n].value).Some? ::
          |env.compress(ops[n].value).value| <= longest)
  }

  /** The 32-bit condition of the other theorems follows from the limit. */
  lemma {:induction false} ModestRunFits(env: Env, ops: seq<Op>, removes: nat, longest: nat)
    requires env.limit > 0 && Modest(env, ops, removes, longest)
    requires env.limit + 35 * removes + 35 + longest <= TWO32 && |ops| <= TWO32
    ensures Fits(HistoryOf(env, ops).batches) && |HistoryOf(env, ops).batches| <= |ops|
  {
    hide HintsFit, TableOf, TotalSize;
    if ops != [] {
      var m := |ops| - 1;
      var before, last := ops[..m], ops[m];
      assert forall n | 0 <= n <= m :: before[..n] == ops[..n];
      assert forall n | 0 <= n < m :: before[n] == ops[n];
      ModestRunFits(env, before, removes, longest);
      TrackedBelowLimit(env, before);
      if last.PutOp? && env.compress(last.value).Some? {
        var row := ValueRow(env, last.key, env.compress(last.value).value);
        TotalSizeConcat(HistoryOf(env, before).tail, [row]);
        OneRowSize(row);
        SmallBatchFits(HistoryOf(env, before).Append(row).tail);
      }
    }
  }

  lemma OneRowSize(row: Row)
    ensures TotalSize([row]) == 35 + |row.value|
  {
  }

  function Removes(keys: seq<u64>): (ops: seq<Op>)
    ensures |ops| == |keys|
  {
    if keys == [] then [] else Removes(keys[..|keys| - 1]) + [RemoveOp(keys[|keys| - 1])]
  }

  /** Removes alone never snapshot, and each of them is 35 bytes that no put has yet
      compared with the limit. */
  lemma {:induction false} RemovesNeverSnapshot(env: Env, ops: seq<Op>, keys: seq<u64>)
    ensures HistoryOf(env, ops + Removes(keys)).batches == HistoryOf(env, ops).batches
    ensures TotalSize(HistoryOf(env, ops + Removes(keys)).tail)
         == TotalSize(HistoryOf(env, ops).tail) + 35 * |keys|
    ensures Unchecked(env, ops + Removes(keys)) == Unchecked(env, ops) + |keys|
  {
    if keys == [] {
      assert ops + [] == ops;
    } else {
      var n := |keys| - 1;
      RemovesNeverSnapshot(env, ops, keys[..n]);
      var before := ops + Removes(keys[..n]);
      assert ops + Removes(keys) == before + [RemoveOp(keys[n])];
      LastIsNext(env, before, RemoveOp(keys[n]));
      assert (before + [RemoveOp(keys[n])])[..|before|] == before;
      TotalSizeConcat(HistoryOf(env, before).tail, [RemoveRow(keys[n])]);
      assert TotalSize([RemoveRow(keys[n])]) == 35;
    }
  }

  /** A put that is stored leaves none unchecked. */
  lemma PutChecks(env: Env, ops: seq<Op>, k: u64, v: Data)
    requires env.compress(v).Some?
    ensures Unchecked(env, ops + [PutOp(k, v)]) == 0
  {
    assert (ops + [PutOp(k, v)])[..|ops|] == ops;
  }
}
