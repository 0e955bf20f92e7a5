/** Where the code falls short of the finite map: runs that break the conditions of
    the theorems, one by one, and what goes wrong in them. */
module Limits {
  import opened Wrappers
  import opened Bytes
  import opened Rows
  import opened Records
  import opened MemTableKeys
  import opened MemTableSpec
  import opened SSTableIndexes
  import opened BloomFilters
  import opened MemTables
  import opened FileNames
  import opened EngineSpec
  import opened EngineFacts
  import opened WriteAheadLogs
  import opened Machine
  import opened Histories
  import opened Reads
  import opened Models
  import opened Coherence
  import opened Recovery
  import opened RecoveryTheorems
  import opened Refinement
  import opened Lz4Adapters
  import opened Sizes

  /** A value that fills the memtable by itself, so that its put snapshots. */
  ghost predicate Filling(env: Env, v: Data) {
    env.Valid() && env.compress(v).Some?
    && var c := env.compress(v).value;
       env.uncompress(c) == Some(v) && |c| + 35 >= env.limit && |c| + 70 < TWO32
  }

  function RowFor(env: Env, k: u64, v: Data): Row
    requires env.compress(v).Some?
  {
    ValueRow(env, k, env.compress(v).value)
  }

  lemma NoOps(env: Env)
    ensures HistoryOf(env, []) == NEW_HISTORY && Model(env, []) == map[]
  {
  }

  lemma ModelSnoc(env: Env, ops: seq<Op>, op: Op)
    ensures Model(env, ops + [op])
         == if op.RemoveOp? then Model(env, ops) - {op.key}
            else if env.compress(op.value).None? then Model(env, ops)
            else Model(env, ops)[op.key := op.value]
  {
    assert (ops + [op])[..|ops|] == ops;
  }

  /** A put of a filling value closes the batch. */
  lemma FillingPut(env: Env, ops: seq<Op>, k: u64, v: Data)
    requires Filling(env, v)
    ensures var h := HistoryOf(env, ops);
            HistoryOf(env, ops + [PutOp(k, v)]) == History(h.batches + [h.tail + [RowFor(env, k, v)]], [])
  {
    var h, row := HistoryOf(env, ops), RowFor(env, k, v);
    LastIsNext(env, ops, PutOp(k, v));
    TotalSizeConcat(h.tail, [row]);
    OneRowSize(row);
  }

  lemma OneRowTable(row: Row)
    ensures First(TableOf([row]), row.key) == if row.key == MAX then None else Some(row)
    ensures Newest([row], row.key) == Some(row)
    ensures SentinelOnly([row]) <==> row.key == MAX
  {
    hide TableOf;
    TableLookup([row], row.key);
    assert [row][..0] == [] && [row][0] == row;
  }

  lemma OneRowFits(row: Row)
    requires RowSize(row) < TWO32
    ensures HintsFit(TableOf([row]))
  {
    hide TableOf, HintsFit;
    OneRowSize(row);
    SmallBatchFits([row]);
  }

  lemma OneBatchNewest(batch: seq<Row>, k: u64)
    ensures DiskNewest([batch], k) == First(TableOf(batch), k)
  {
    hide TableOf;
    assert [batch][..0] == [];
  }

  /** The history of one filling put. */
  lemma OnePut(env: Env, k: u64, v: Data)
    requires Filling(env, v)
    ensures var h := HistoryOf(env, [PutOp(k, v)]);
            h == History([[RowFor(env, k, v)]], []) && Fits(h.batches)
            && h.Logged() == [RowFor(env, k, v)]
    ensures DiskNewest([[RowFor(env, k, v)]], k) == if k == MAX then None else Some(RowFor(env, k, v))
    ensures Model(env, [PutOp(k, v)]) == map[k := v]
  {
    hide TableOf, Serialize, HistoryOf, HintsFit, Model;
    var row := RowFor(env, k, v);
    NoOps(env);
    FillingPut(env, [], k, v);
    ModelSnoc(env, [], PutOp(k, v));
    assert [] + [PutOp(k, v)] == [PutOp(k, v)] && [] + [row] == [row] && [] + [[row]] == [[row]];
    OneRowTable(row);
    OneRowFits(row);
    OneBatchNewest([row], k);
    assert [[row]][..0] == [] && Flatten([[row]]) == [row];
  }

  // ----- Removes -----

  /** put, snapshot, remove, get: the removed value is back. */
  lemma RemovedValueReturns(env: Env, k: u64, v: Data)
    requires Filling(env, v) && k != MAX
    ensures var ops := [PutOp(k, v), RemoveOp(k)];
            Get(env, Run(env, ops), k) == Found(v) && Answer(Model(env, ops), k) == NotFound
  {
    hide Get, Run, StateOf, DiskNewest, Fits, HistoryOf, Model;
    var ops, row := [PutOp(k, v), RemoveOp(k)], RowFor(env, k, v);
    OnePut(env, k, v);
    LastIsNext(env, [PutOp(k, v)], RemoveOp(k));
    ModelSnoc(env, [PutOp(k, v)], RemoveOp(k));
    assert [PutOp(k, v)] + [RemoveOp(k)] == ops;
    assert HistoryOf(env, ops) == History([[row]], [RemoveRow(k)]);
    FitsSize([[row]]);
    RunIsHistory(env, ops);
    FitsKey(HistoryOf(env, ops).batches, k);
    GetMeaning(env, HistoryOf(env, ops), k);
    OneRowTable(RemoveRow(k));
  }

  // ----- The largest key -----

  lemma MaxLost(env: Env, v: Data)
    requires Filling(env, v)
    ensures var ops := [PutOp(MAX, v)];
            Get(env, Run(env, ops), MAX) == NotFound && Answer(Model(env, ops), MAX) == Found(v)
  {
    hide Get, Run, StateOf, DiskNewest, Fits, HistoryOf, Model;
    var ops := [PutOp(MAX, v)];
    OnePut(env, MAX, v);
    FitsSize([[RowFor(env, MAX, v)]]);
    RunIsHistory(env, ops);
    FitsKey(HistoryOf(env, ops).batches, MAX);
    GetMeaning(env, HistoryOf(env, ops), MAX);
  }

  /** put of the largest key, snapshot, get: the value is gone; close, reopen, get:
      it is back. */
  lemma LargestKeyIsLost(env: Env, v: Data, dir: Directory)
    requires Filling(env, v)
    requires ClosedDirectory(env, HistoryOf(env, [PutOp(MAX, v)]), dir)
    ensures var ops := [PutOp(MAX, v)];
            && Get(env, Run(env, ops), MAX) == NotFound && Answer(Model(env, ops), MAX) == Found(v)
            && ReadsAs(env, dir, MAX, Found(v))
  {
    hide Get, Run, StateOf, DiskNewest, Fits, HistoryOf, Model, ClosedDirectory, OpenEngine, Passes, ZeroForged;
    var row := RowFor(env, MAX, v);
    MaxLost(env, v);
    OnePut(env, MAX, v);
    ClosedGet(env, History([[row]], []), dir, MAX);
    OneRowTable(row);
  }

  // ----- Empty segments -----

  /** The operations, all of them harmless, after which key 0 is forged. */
  function ForgingOps(v: Data): seq<Op> {
    [RemoveOp(0), PutOp(MAX, v), PutOp(MAX, v)]
  }

  /** What they leave: a segment with a tombstone of key 0, then an empty segment. */
  lemma ForgingHistory(env: Env, v: Data)
    requires Filling(env, v)
    ensures var row := RowFor(env, MAX, v);
            HistoryOf(env, ForgingOps(v)) == History([[RemoveRow(0), row], [row]], [])
            && HistoryOf(env, [RemoveOp(0), PutOp(MAX, v)]) == History([[RemoveRow(0), row]], [])
            && HistoryOf(env, [RemoveOp(0)]) == History([], [RemoveRow(0)])
    ensures Answer(Model(env, ForgingOps(v)), 0) == NotFound
  {
    hide HistoryOf, Next, Model;
    var r, p, row := RemoveOp(0), PutOp(MAX, v), RowFor(env, MAX, v);
    NoOps(env);
    LastIsNext(env, [], r);
    FirstRemove(env, 0);
    assert [] + [r] == [r] && [r] + [p] == [r, p] && [r, p] + [p] == ForgingOps(v);
    FillingPut(env, [r], MAX, v);
    FillingPut(env, [r, p], MAX, v);
    assert [RemoveRow(0)] + [row] == [RemoveRow(0), row] && [] + [row] == [row];
    ModelSnoc(env, [], r);
    ModelSnoc(env, [r], p);
    ModelSnoc(env, [r, p], p);
  }

  lemma FirstRemove(env: Env, k: u64)
    ensures Next(env, NEW_HISTORY, RemoveOp(k)) == History([], [RemoveRow(k)])
  {
  }

  /** Its segments: key 0 is a tombstone in the first, and the second vanishes. */
  lemma ForgingSegments(row: Row)
    requires row.key == MAX && RowSize(row) + 35 < TWO32 && row.Live()
    ensures var b := [[RemoveRow(0), row], [row]];
            Fits(b) && ZeroForged(b) && DiskNewest(b, 0) == Some(RemoveRow(0))
            && DiskNewest(b[..1], MAX) == Some(row)
    ensures Newest(Flatten([[RemoveRow(0), row], [row]]), 0) == Some(RemoveRow(0))
  {
    hide TableOf, HintsFit, DiskNewest, Flatten;
    var first, b := [RemoveRow(0), row], [[RemoveRow(0), row], [row]];
    OneRowTable(row);
    assert ForgedAt(b, 1);
    assert first[0].key != MAX;
    NewestAppend([RemoveRow(0)], row, 0);
    NewestAppend([RemoveRow(0)], row, MAX);
    assert [RemoveRow(0)] + [row] == first;
    OneRowTable(RemoveRow(0));
    TableLookup(first, 0);
    TableLookup(first, MAX);
    OneBatchNewest(first, 0);
    OneBatchNewest(first, MAX);
    assert b[..1] == [first] && [first] + [[row]] == b;
    DiskNewestIs([first], [row], 0);
    OneRowSize(row);
    SmallBatchFits([row]);
    TotalSizeConcat([RemoveRow(0)], [row]);
    OneRowSize(RemoveRow(0));
    SmallBatchFits(first);
    DiskIsFlat(b, 0);
  }

  lemma ForgingHarmless(env: Env, v: Data)
    requires Filling(env, v)
    ensures HarmlessThroughout(env, ForgingOps(v))
  {
    hide HistoryOf, DiskNewest, TotalSize;
    var ops, row := ForgingOps(v), RowFor(env, MAX, v);
    ForgingHistory(env, v);
    ForgingSegments(row);
    DiskNothing(0);
    NoOps(env);
    assert ops[..0] == [] && ops[..1] == [RemoveOp(0)] && ops[..2] == [RemoveOp(0), PutOp(MAX, v)];
    assert [[RemoveRow(0), row], [row]][..1] == [[RemoveRow(0), row]];
    assert !SentinelOnly([RemoveRow(0)] + [row]) by {
      assert ([RemoveRow(0)] + [row])[0].key == 0;
    }
    assert Harmless(env, HistoryOf(env, ops[..0]), ops[0]);
    assert Harmless(env, HistoryOf(env, ops[..1]), ops[1]);
    assert Harmless(env, HistoryOf(env, ops[..2]), ops[2]);
  }

  /** In this session every operation is harmless and every read agrees with the map.
      After closing and reopening, key 0 reads garbage: the empty segment's index
      file has gained it. */
  lemma EmptySegmentForgesZero(env: Env, v: Data, dir: Directory)
    requires Filling(env, v) && ClosedDirectory(env, HistoryOf(env, ForgingOps(v)), dir)
    ensures HarmlessThroughout(env, ForgingOps(v))
    ensures Answer(Model(env, ForgingOps(v)), 0) == NotFound
    ensures Get(env, Run(env, ForgingOps(v)), 0) == NotFound
    ensures ReadsAs(env, dir, 0, UndefinedRead)
  {
    hide Get, Run, StateOf, DiskNewest, Fits, HistoryOf, Model, ClosedDirectory, OpenEngine, ProbablyContains,
         ZeroForged, Bits, HarmlessThroughout, History.Logged, Flatten;
    var h := HistoryOf(env, ForgingOps(v));
    ForgingHarmless(env, v);
    ForgingHistory(env, v);
    ForgingSegments(RowFor(env, MAX, v));
    FitsSize(h.batches);
    RunIsHistory(env, ForgingOps(v));
    FitsKey(h.batches, 0);
    GetMeaning(env, h, 0);
    LoggedOfCut(h);
    FilterPasses(env.shape, h.batches, 0);
    ReopenIsInvisible(env, h, dir, 0);
    ClosedGet(env, h, dir, 0);
    ClosedFilter(env, h, dir, 0);
    LiveListRestored(h.batches, dir.order);
  }

  lemma LoggedOfCut(h: History)
    requires h.tail == []
    ensures h.Logged() == Flatten(h.batches)
  {
  }

  // ----- Lossy compressors and long values -----

  /** The history of one put that leaves the memtable below its limit. */
  lemma KeptPut(env: Env, k: u64, v: Data)
    requires env.compress(v).Some? && |env.compress(v).value| + 35 < env.limit
    ensures HistoryOf(env, [PutOp(k, v)]) == History([], [RowFor(env, k, v)])
    ensures Model(env, [PutOp(k, v)]) == map[k := v]
  {
    hide HistoryOf, Model, TotalSize;
    var row := RowFor(env, k, v);
    NoOps(env);
    LastIsNext(env, [], PutOp(k, v));
    ModelSnoc(env, [], PutOp(k, v));
    assert [] + [PutOp(k, v)] == [PutOp(k, v)] && NEW_HISTORY.Append(row) == History([], [row]);
    OneRowSize(row);
  }

  /** A compressor that does not give a value back: the engine throws, or delivers a
      value that was never put. */
  lemma LossyCompressorDelivers(env: Env, k: u64, v: Data)
    requires env.Valid() && env.compress(v).Some? && |env.compress(v).value| + 35 < env.limit
    requires env.uncompress(env.compress(v).value) != Some(v)
    ensures var ops := [PutOp(k, v)];
            && Get(env, Run(env, ops), k)
               == (match env.uncompress(env.compress(v).value)
                   case None => UncompressError
                   case Some(w) => Found(w))
            && Answer(Model(env, ops), k) == Found(v)
  {
    hide Get, Run, StateOf, HistoryOf, Model, DiskNewest, KeyFits, TableOf, First, Newest, SentinelOnly;
    var row := RowFor(env, k, v);
    KeptPut(env, k, v);
    RunIsHistory(env, [PutOp(k, v)]);
    OneRowTable(row);
    GetMeaning(env, History([], [row]), k);
  }

  /** So it is with the default compressor and the empty value: put succeeds, get
      throws. */
  lemma EmptyValueIsUnreadable(env: Env, codec: Codec, k: u64)
    requires env.Valid() && UsesLz4(env, codec) && codec.pack([]).Some? && codec.pack([]).value != []
    requires |codec.pack([]).value| + 43 < env.limit
    ensures var ops := [PutOp(k, [])];
            Get(env, Run(env, ops), k) == UncompressError && Answer(Model(env, ops), k) == Found([])
  {
    hide Get, Run, Model, Compress, Uncompress, Codec.Sound;
    EmptyThrows(codec);
    LossyCompressorDelivers(env, k, []);
  }

  /** A row of 2^32 bytes: its size is stored as 0, and reading it back decodes an
      empty buffer. */
  lemma WrappedSizeIsUnreadable(env: Env, k: u64, v: Data)
    requires env.Valid() && env.compress(v).Some? && |env.compress(v).value| + 35 == TWO32
    requires env.limit <= TWO32 && k != MAX
    ensures var ops := [PutOp(k, v)];
            Get(env, Run(env, ops), k) == UndefinedRead && Answer(Model(env, ops), k) == Found(v)
  {
    hide Get, Run, StateOf, HistoryOf, Model, TotalSize;
    var ops, row := [PutOp(k, v)], RowFor(env, k, v);
    NoOps(env);
    LastIsNext(env, [], PutOp(k, v));
    ModelSnoc(env, [], PutOp(k, v));
    assert [] + [PutOp(k, v)] == ops;
    OneRowSize(row);
    assert NEW_HISTORY.Append(row) == History([], [row]) && [] + [[row]] == [[row]];
    RunIsHistory(env, ops);
    WrappedRead(env, row);
  }

  lemma WrappedRead(env: Env, row: Row)
    requires env.Valid() && RowSize(row) == TWO32 && row.key != MAX
    ensures Get(env, StateOf(env, History([[row]], [])), row.key) == UndefinedRead
  {
    hide Get, StateOf, TableOf, ReadWrapped, RowSize, Place, First;
    var h := History([[row]], []);
    OneRowTable(row);
    OneRowIs(row);
    WrappedRow(row);
    GetExactly(env, h, row.key);
    NothingNewest(row.key);
    assert DiskRead(h.batches, row.key) == Some(ReadWrapped(TableOf([row]), row.key));
  }

  lemma WrappedRow(row: Row)
    requires RowSize(row) == TWO32
    ensures ReadWrapped([row], row.key).Undefined?
  {
    hide SerializeAll, DecodeKey;
    assert [row][..0] == [];
    assert ReadAt(SerializeAll([row]), 0, 0) == [];
  }

  lemma OneRowIs(row: Row)
    requires row.key != MAX
    ensures TableOf([row]) == [row]
  {
    var es := MemOf([row]);
    assert [row][..0] == [] && InsertAll([], 0, []) == [];
    assert es == [Entry(InsertKey(0, row.key), row)] && es[1..] == [];
    assert Scan([], row.key) == [];
  }

  // ----- A put after reopening -----

  /** The table of two rows with keys 1 and 2. */
  lemma TwoRows(one: Row, two: Row)
    requires one.key == 1 && two.key == 2
    ensures TableOf([one]) == [one] && TableOf([one, two]) == [one, two]
    ensures MemOf([one, two]) == Insert(MemOf([one]), Entry(InsertKey(1, 2), two))
  {
    OneRowIs(one);
    var rows, e, f := [one, two], Entry(InsertKey(0, 1), one), Entry(InsertKey(1, 2), two);
    assert rows[..1] == [one] && [one][..0] == [] && InsertAll([], 0, []) == [];
    assert MemOf([one]) == [e];
    assert Insert([], f) == [f] && [e][1..] == [];
    assert MemOf(rows) == [e, f] && [e, f][1..] == [f] && [f][1..] == [];
    assert Scan([], 2) == [] && Scan([f], 1) == [two] && Scan([e, f], MAX) == [one] + Scan([f], 1);
  }

  lemma FillingSize(env: Env, k: u64, v: Data)
    requires Filling(env, v)
    ensures env.limit <= RowSize(RowFor(env, k, v)) < TWO32
  {
  }

  lemma OneHint(row: Row)
    requires row.key == 1 && RowSize(row) < TWO32
    ensures SegmentIndex(0, [row]) == TableIndex(0, map[1 := Hint(0, RowSize(row))])
  {
    hide TableOf, RowSize;
    OneRowIs(row);
    assert [row][1..] == [];
    assert Register(map[1 := Hint(0, Low32(RowSize(row)))], [], Low32(0 + RowSize(row)))
        == map[1 := Hint(0, Low32(RowSize(row)))];
    Low32Of(RowSize(row));
  }

  /** What the reopened engine is before the put, and what the put leaves. */
  ghost predicate OneReopened(env: Env, s: State, row: Row) {
    && s.mem == MemState(MemOf([row]), 1, 0, Some(EMPTY_LOG)) && s.segment == 0
    && |s.bits| == env.shape.cells
    && RowSize(row) < TWO32 && s.tables == [TableIndex(0, map[1 := Hint(0, RowSize(row))])]
  }

  ghost predicate KeyLost(env: Env, e: Effect, one: Row, two: Row, v: Data)
    requires env.Valid()
  {
    && e.Thrown? && e.state.mem.entries == [] && |e.state.bits| == env.shape.cells
    && 0 in e.state.disk.chunks && e.state.disk.chunks[0] == Serialize(one) + Serialize(two)
    && Get(env, e.state, 2) == NotFound && Get(env, e.state, 1) == Found(v)
  }

  /** The state after reopening a session with one put of key 1. */
  lemma ReopenedOne(env: Env, v: Data, dir: Directory)
    requires Filling(env, v) && ClosedDirectory(env, HistoryOf(env, [PutOp(1, v)]), dir)
    ensures Opens(env, dir) && OneReopened(env, OpenEngine(env, dir).state, RowFor(env, 1, v))
  {
    hide HistoryOf, ClosedDirectory, OpenEngine, Fits, Model, Image, Inv, StateOf, SegmentIndex, TableOf,
         LoadFilter, MemOf, RowSize;
    var row := RowFor(env, 1, v);
    var h := History([[row]], []);
    OnePut(env, 1, v);
    var c := Idle(StateOf(env, h), h);
    ClosedImage(env, h, dir);
    ImageOrder(env, c, 1, dir);
    ImageScanned(c, 1, dir);
    OpenImage(env, c, 1, dir);
    OneInOrder(dir.order);
    assert h.Logged()[..1] == [row];
    OneRowIs(row);
    FillingSize(env, 1, v);
    OneHint(row);
    assert [0][..0] == [] && ListOf([[row]], []) == [];
    assert ListOf([[row]], [0]) == [LoadedTable(0, [row])];
  }

  lemma OneInOrder(order: seq<nat>)
    requires PathOrder(order, 1)
    ensures order == [0]
  {
    LoadOrderIsCreationOrder(order, 1);
  }

  lemma PutAfterOne(env: Env, s: State, v: Data)
    requires Filling(env, v) && OneReopened(env, s, RowFor(env, 1, v))
    ensures KeyLost(env, Put(env, s, 2, v), RowFor(env, 1, v), RowFor(env, 2, v), v)
  {
    hide Get, Snapshot, Serialize, RowSize, MemOf, TableOf, KeysAdded;
    var one, two := RowFor(env, 1, v), RowFor(env, 2, v);
    var full := PutRow(s, two);
    FillingSize(env, 1, v);
    FillingSize(env, 2, v);
    FullTable(s, one, two);
    SnapshotAnywhere(env, full);
    assert full.tables[0].fileId == Low32(full.segment);
    TwoRecords(one, two);
    ReadsOfTwo(env, full, one, two);
  }

  /** After a throwing snapshot of two rows, with a list that knows the first of them. */
  lemma ReadsOfTwo(env: Env, full: State, one: Row, two: Row)
    requires env.Valid() && |full.bits| == env.shape.cells && Snapshot(env, full).Thrown?
    requires Table(full) == [one, two] && one.key == 1 && two.key == 2 && one.Live() && full.segment == 0
    requires RowSize(one) < TWO32 && full.tables == [TableIndex(0, map[1 := Hint(0, RowSize(one))])]
    ensures |Snapshot(env, full).state.bits| == env.shape.cells
    ensures Get(env, Snapshot(env, full).state, 2) == NotFound
    ensures Get(env, Snapshot(env, full).state, 1) == Deliver(env, one)
  {
    hide Get, Snapshot, Serialize, RowSize, Deserialize, ReadAt, ProbablyContains, Table, Deliver;
    TwoRecords(one, two);
    ReadAfterThrow(env, full, 2);
    ReadAfterThrow(env, full, 1);
    ReadBack(SerializeAll([one, two]), one, 0, RowSize(one));
  }

  /** A session with one put, closed and reopened; a put of another key throws, because
      its snapshot wants segment 0 again. By then the memtable is empty and the segment
      file replaced: the new key is not found, and the old list reads key 1 from the
      new file. */
  lemma ThrowingPutLosesKey(env: Env, v: Data, dir: Directory)
    requires Filling(env, v) && ClosedDirectory(env, HistoryOf(env, [PutOp(1, v)]), dir)
    ensures Opens(env, dir) && OneReopened(env, OpenEngine(env, dir).state, RowFor(env, 1, v))
    ensures KeyLost(env, Put(env, OpenEngine(env, dir).state, 2, v), RowFor(env, 1, v), RowFor(env, 2, v), v)
  {
    hide HistoryOf, ClosedDirectory, OpenEngine, Put, OneReopened, KeyLost;
    ReopenedOne(env, v, dir);
    PutAfterOne(env, OpenEngine(env, dir).state, v);
  }

  lemma FullTable(s: State, one: Row, two: Row)
    requires s.mem.entries == MemOf([one]) && s.mem.counter == 1 && one.key == 1 && two.key == 2
    ensures Table(PutRow(s, two)) == [one, two]
  {
    hide RowSize;
    TwoRows(one, two);
  }

  lemma TwoRecords(one: Row, two: Row)
    ensures SerializeAll([one, two]) == Serialize(one) + Serialize(two)
    ensures SerializeAll([one, two])[0..RowSize(one)] == Serialize(one)
  {
    hide Serialize;
    assert [one, two][1..] == [two] && [two][1..] == [];
    assert SerializeAll([two]) == Serialize(two) + [] == Serialize(two);
  }

  // ----- More than ten segments -----

  /** Segment 10 comes before segment 2, so it is not the last to be loaded. */
  lemma LastIsNotTen(order: seq<nat>)
    requires order != [] && 2 in order && order[|order| - 1] != 2
    requires forall i, j | 0 <= i < j < |order| :: LexLess(IndexName(order[i]), IndexName(order[j]))
    ensures order[|order| - 1] != 10 && 2 in order[..|order| - 1]
  {
    hide IndexName, LexLess;
    var p :| 0 <= p < |order| && order[p] == 2;
    assert order[..|order| - 1][p] == 2;
    assert LexLess(IndexName(order[p]), IndexName(order[|order| - 1]));
    TenBeforeTwo();
  }

  lemma {:induction false} TwoBeforeTen(batches: seq<seq<Row>>, order: seq<nat>, k: u64)
    requires InRange(order, |batches|) && 10 < |batches|
    requires forall i | 0 <= i < |batches| ::
      First(TableOf(batches[i]), k).Some? <==> i == 2 || i == 10
    requires 2 in order
    requires forall i, j | 0 <= i < j < |order| :: LexLess(IndexName(order[i]), IndexName(order[j]))
    ensures DiskNewest(Listed(batches, order), k) == First(TableOf(batches[2]), k)
  {
    hide TableOf, IndexName, LexLess, First;
    var n := |order| - 1;
    var last := order[n];
    assert Listed(batches, order)[..n] == Listed(batches, order[..n]);
    if last != 2 {
      LastIsNotTen(order);
      TwoBeforeTen(batches, order[..n], k);
    }
  }

  /** The key is put in segment 2, removed in segment 10 and nowhere else. */
  ghost predicate TwoThenTen(h: History, k: u64) {
    && |h.batches| > 10 && Newest(h.tail, k).None? && 0 < k < MAX
    && (forall i | 0 <= i < |h.batches| ::
          First(TableOf(h.batches[i]), k).Some? <==> i == 2 || i == 10)
    && First(TableOf(h.batches[2]), k).value.Live()
    && !First(TableOf(h.batches[10]), k).value.Live()
  }

  /** With eleven or more segments such a key is not found before closing, and
      after reopening its old value is back. */
  lemma EleventhSegmentResurrects(env: Env, h: History, dir: Directory, k: u64)
    requires env.Valid() && Fits(h.batches) && ClosedDirectory(env, h, dir) && TwoThenTen(h, k)
    ensures Get(env, StateOf(env, h), k) == NotFound
    ensures ReadsAs(env, dir, k, Deliver(env, First(TableOf(h.batches[2]), k).value))
  {
    hide StateOf, Get, OpenEngine, ClosedDirectory, DiskNewest, HintsFit, Deliver, TableOf, ProbablyContains,
         Bits, LexLess, IndexName, ZeroForged, History.Logged;
    TenthAnswers(h.batches, |h.batches|, k);
    assert h.batches[..|h.batches|] == h.batches;
    FitsKey(h.batches, k);
    GetMeaning(env, h, k);
    DiskIsFlat(h.batches, k);
    SaidSplits(h, k);
    ClosedGet(env, h, dir, k);
    ClosedFilter(env, h, dir, k);
    FilterPasses(env.shape, h.batches, k);
    OrderOf(dir.order, |h.batches|);
    TwoBeforeTen(h.batches, dir.order, k);
  }

  lemma OrderOf(order: seq<nat>, n: nat)
    requires PathOrder(order, n) && n > 2
    ensures 2 in order
    ensures forall i, j | 0 <= i < j < |order| :: LexLess(IndexName(order[i]), IndexName(order[j]))
  {
  }

  /** Counting from segment 10 on, the tombstone is the newest row. */
  lemma {:induction false} TenthAnswers(batches: seq<seq<Row>>, n: nat, k: u64)
    requires 10 < n <= |batches|
    requires forall i | 0 <= i < |batches| ::
      First(TableOf(batches[i]), k).Some? <==> i == 2 || i == 10
    ensures DiskNewest(batches[..n], k) == First(TableOf(batches[10]), k)
  {
    hide TableOf;
    assert batches[..n][..n - 1] == batches[..n - 1];
    if n > 11 {
      TenthAnswers(batches, n - 1, k);
    }
  }

  // ----- Sessions of any number of segments -----

  /** Put `k` into segment 2, remove it in segment 10, fill the rest with `x`. */
  function Session(n: nat, k: u64, x: u64, v: Data): seq<Op> {
    if n == 0 then [] else Session(n - 1, k, x, v) + SessionOps(n - 1, k, x, v)
  }

  function SessionOps(i: nat, k: u64, x: u64, v: Data): seq<Op> {
    if i == 10 then [RemoveOp(k), PutOp(x, v)] else [PutOp(if i == 2 then k else x, v)]
  }

  function SessionBatch(env: Env, i: nat, k: u64, x: u64, v: Data): seq<Row>
    requires env.compress(v).Some?
  {
    if i == 10 then [RemoveRow(k), RowFor(env, x, v)]
    else [RowFor(env, if i == 2 then k else x, v)]
  }

  function SessionBatches(env: Env, n: nat, k: u64, x: u64, v: Data): (b: seq<seq<Row>>)
    requires env.compress(v).Some?
    ensures |b| == n
    ensures forall i | 0 <= i < n :: b[i] == SessionBatch(env, i, k, x, v)
  {
    if n == 0 then [] else SessionBatches(env, n - 1, k, x, v) + [SessionBatch(env, n - 1, k, x, v)]
  }

  lemma SessionStep(env: Env, before: seq<Op>, b: seq<seq<Row>>, i: nat, k: u64, x: u64, v: Data)
    requires Filling(env, v) && HistoryOf(env, before) == History(b, [])
    ensures HistoryOf(env, before + SessionOps(i, k, x, v)) == History(b + [SessionBatch(env, i, k, x, v)], [])
  {
    hide HistoryOf;
    var batch := SessionBatch(env, i, k, x, v);
    if i == 10 {
      LastIsNext(env, before, RemoveOp(k));
      FillingPut(env, before + [RemoveOp(k)], x, v);
      assert before + SessionOps(i, k, x, v) == before + [RemoveOp(k)] + [PutOp(x, v)];
      assert [] + [RemoveRow(k)] + [RowFor(env, x, v)] == batch;
    } else {
      FillingPut(env, before, if i == 2 then k else x, v);
      assert [] + batch == batch;
    }
  }

  lemma {:induction false} SessionHistory(env: Env, n: nat, k: u64, x: u64, v: Data)
    requires Filling(env, v)
    ensures HistoryOf(env, Session(n, k, x, v)) == History(SessionBatches(env, n, k, x, v), [])
  {
    hide HistoryOf, SessionBatch, SessionOps;
    if n == 0 {
      NoOps(env);
    } else {
      SessionHistory(env, n - 1, k, x, v);
      SessionStep(env, Session(n - 1, k, x, v), SessionBatches(env, n - 1, k, x, v), n - 1, k, x, v);
    }
  }

  lemma SessionTable(env: Env, i: nat, k: u64, x: u64, v: Data)
    requires Filling(env, v) && k != x && 0 < k < MAX && x < MAX
    ensures var batch := SessionBatch(env, i, k, x, v);
            && HintsFit(TableOf(batch)) && batch != []
            && First(TableOf(batch), k)
               == if i == 2 then Some(RowFor(env, k, v)) else if i == 10 then Some(RemoveRow(k)) else None
  {
    hide TableOf, HintsFit;
    var batch := SessionBatch(env, i, k, x, v);
    var n := |batch| - 1;
    assert TotalSize(batch) < TWO32 by {
      assert batch[1..] == if i == 10 then [batch[1]] else [];
      if i == 10 {
        OneRowSize(batch[1]);
      } else {
        OneRowSize(batch[0]);
        assert batch == [batch[0]];
      }
    }
    SmallBatchFits(batch);
    TableLookup(batch, k);
    assert batch[n].key != MAX;
    assert batch[..n] == if i == 10 then [RemoveRow(k)] else [];
    NewestAppend([], RemoveRow(k), k);
    assert [] + [RemoveRow(k)] == [RemoveRow(k)];
  }

  lemma SessionShape(env: Env, n: nat, k: u64, x: u64, v: Data)
    requires Filling(env, v) && k != x && 0 < k < MAX && x < MAX && 10 < n <= TWO32
    ensures var h := History(SessionBatches(env, n, k, x, v), []);
            && Fits(h.batches) && TwoThenTen(h, k)
            && First(TableOf(h.batches[2]), k).value == RowFor(env, k, v)
            && Flatten(h.batches) != []
  {
    hide TableOf, HintsFit, SessionBatch;
    var b := SessionBatches(env, n, k, x, v);
    forall i | 0 <= i < n
      ensures HintsFit(TableOf(b[i])) && b[i] != []
      ensures First(TableOf(b[i]), k)
           == if i == 2 then Some(RowFor(env, k, v)) else if i == 10 then Some(RemoveRow(k)) else None
    {
      SessionTable(env, i, k, x, v);
    }
  }

  // ----- Exactly ten -----

  /** Every session with `n` segments reads the same after closing and reopening, for
      every key but 0 and MAX. */
  ghost predicate ReopenInvisibleAt(env: Env, n: nat)
    requires env.Valid()
  {
    forall ops: seq<Op>, dir: Directory, k: u64
      | SessionOf(env, ops, n) && ClosedDirectory(env, HistoryOf(env, ops), dir) && 0 < k < MAX ::
      ReadsAs(env, dir, k, Get(env, Run(env, ops), k))
  }

  ghost predicate SessionOf(env: Env, ops: seq<Op>, n: nat) {
    var h := HistoryOf(env, ops);
    |h.batches| == n && Fits(h.batches) && h.Logged() != []
  }

  lemma ScannedDirectory(env: Env, h: History)
    requires env.Valid()
    ensures ClosedDirectory(env, h,
      Directory(Some(SerializeAll(h.Logged())), StateOf(env, h).disk, ScanOf(|h.batches|)))
  {
    hide SerializeAll, IndexFile, Bits, Chunks, Tables, MemStateOf, ScanOf, IndexName, LexLess;
    PathOrderExists(|h.batches|);
  }

  /** Up to ten segments, for every configuration. */
  lemma InvisibleUpToTen(env: Env, n: nat)
    requires env.Valid() && n <= 10
    ensures ReopenInvisibleAt(env, n)
  {
    hide Get, Run, StateOf, OpenEngine, ClosedDirectory, Fits, History.Logged, HistoryOf, ZeroGarbled, MaxReturns;
    forall ops: seq<Op>, dir: Directory, k: u64
      | SessionOf(env, ops, n) && ClosedDirectory(env, HistoryOf(env, ops), dir) && 0 < k < MAX
      ensures ReadsAs(env, dir, k, Get(env, Run(env, ops), k))
    {
      FitsSize(HistoryOf(env, ops).batches);
      ReopenIsInvisible(env, HistoryOf(env, ops), dir, k);
      RunIsHistory(env, ops);
    }
  }

  /** From eleven on, for every configuration in which some value fills the memtable. */
  lemma VisibleFromEleven(env: Env, n: nat, v: Data)
    requires Filling(env, v) && 10 < n <= TWO32
    ensures !ReopenInvisibleAt(env, n)
  {
    hide Get, Run, StateOf, OpenEngine, ClosedDirectory, Fits, History.Logged, Session, SessionBatches,
         TwoThenTen, TableOf, HistoryOf, ScanOf, SerializeAll;
    var ops, h := Session(n, 1, 2, v), History(SessionBatches(env, n, 1, 2, v), []);
    SessionHistory(env, n, 1, 2, v);
    SessionShape(env, n, 1, 2, v);
    LoggedOfCut(h);
    ScannedDirectory(env, h);
    var dir := Directory(Some(SerializeAll(h.Logged())), StateOf(env, h).disk, ScanOf(|h.batches|));
    EleventhSegmentResurrects(env, h, dir, 1);
    FitsSize(h.batches);
    RunIsHistory(env, ops);
    assert !ReadsAs(env, dir, 1, Get(env, Run(env, ops), 1));
  }

  /** With such a value, reopening is invisible for every session of n segments
      exactly when n is at most ten. */
  lemma ReopenInvisibleUpToTen(env: Env, n: nat, v: Data)
    requires Filling(env, v) && n <= TWO32
    ensures ReopenInvisibleAt(env, n) <==> n <= 10
  {
    hide ReopenInvisibleAt;
    if n <= 10 {
      InvisibleUpToTen(env, n);
    } else {
      VisibleFromEleven(env, n, v);
    }
  }
}
