/** A session as its history of rows: the batches already snapshotted and the rows
    logged since. The whole engine state of a first session is a function of it. */
module Histories {
  import opened Wrappers
  import opened Bytes
  import opened Rows
  import opened MemTableSpec
  import opened SSTableIndexes
  import opened Indexes
  import opened BloomFilters
  import opened WriteAheadLogs
  import opened MemTables
  import opened EngineSpec

  datatype History = History(batches: seq<seq<Row>>, tail: seq<Row>) {

    function Append(row: Row): History {
      History(batches, tail + [row])
    }

    /** A snapshot closes the current batch. */
    function Cut(): History {
      History(batches + [tail], [])
    }

    function Logged(): seq<Row> {
      Flatten(batches) + tail
    }
  }

  const NEW_HISTORY := History([], [])

  function Flatten(batches: seq<seq<Row>>): seq<Row> {
    if batches == [] then [] else Flatten(batches[..|batches| - 1]) + batches[|batches| - 1]
  }

  // ----- The state a history determines -----

  function SegmentIndex(i: nat, batch: seq<Row>): TableIndex {
    IndexOf(Low32(i), TableOf(batch))
  }

  function Tables(batches: seq<seq<Row>>): (t: seq<TableIndex>)
    ensures |t| == |batches|
  {
    if batches == [] then []
    else
      var n := |batches| - 1;
      [SegmentIndex(n, batches[n])] + Tables(batches[..n])
  }

  function Bits(s: Shape, batches: seq<seq<Row>>): (bits: seq<byte>)
    requires s.Valid()
    ensures |bits| == s.cells
  {
    if batches == [] then Empty(s)
    else
      var n := |batches| - 1;
      AddRows(s, Bits(s, batches[..n]), TableOf(batches[n]))
  }

  function Chunks(batches: seq<seq<Row>>): map<nat, seq<byte>> {
    map i: nat | i < |batches| :: SerializeAll(TableOf(batches[i]))
  }

  ghost function IndexFile(env: Env, i: nat, batch: seq<Row>): seq<byte>
    requires env.Valid()
  {
    var t := SegmentIndex(i, batch);
    Encode(t, env.traverse(t))
  }

  ghost function IndexFilesOf(env: Env, batches: seq<seq<Row>>): map<nat, seq<byte>>
    requires env.Valid()
  {
    map i: nat | i < |batches| :: IndexFile(env, i, batches[i])
  }

  function MemStateOf(h: History): MemState {
    MemState(MemOf(h.tail), |h.tail|, TotalSize(h.tail),
             Some(Log(SerializeAll(h.Logged()), TotalSize(Flatten(h.batches)))))
  }

  ghost function DiskOf(env: Env, batches: seq<seq<Row>>): Disk
    requires env.Valid()
  {
    Disk(Chunks(batches), IndexFilesOf(env, batches),
         if batches == [] then None else Some(Bits(env.shape, batches)))
  }

  ghost function StateOf(env: Env, h: History): (s: State)
    requires env.Valid()
    ensures |s.bits| == env.shape.cells
  {
    State(MemStateOf(h), Bits(env.shape, h.batches), Tables(h.batches), |h.batches|,
          DiskOf(env, h.batches))
  }

  // ----- Every operation keeps the representation -----

  /** A put or a remove appends one row, in memory and in the log. */
  lemma AppendState(env: Env, h: History, row: Row)
    requires env.Valid()
    ensures PutRow(StateOf(env, h), row) == StateOf(env, h.Append(row))
  {
    hide Serialize;
    assert (h.tail + [row])[..|h.tail|] == h.tail;
    assert h.Append(row).Logged() == h.Logged() + [row];
    SerializeAllConcat(h.Logged(), [row]);
    TotalSizeConcat(h.tail, [row]);
    assert SerializeAll([row]) == Serialize(row) + SerializeAll([]) == Serialize(row);
    assert TotalSize([row]) == RowSize(row);
  }

  lemma {:induction false} TableIds(batches: seq<seq<Row>>, j: nat)
    requires j < |batches|
    ensures Tables(batches)[j] == SegmentIndex(|batches| - 1 - j, batches[|batches| - 1 - j])
  {
    if j > 0 {
      TableIds(batches[..|batches| - 1], j - 1);
    }
  }

  /** Segment numbers of one session do not collide before 2^32 snapshots. */
  lemma NextIdIsFree(batches: seq<seq<Row>>)
    requires |batches| < TWO32
    ensures !Indexed(Tables(batches), Low32(|batches|))
  {
    hide Register, TableOf, Tables;
    forall j | 0 <= j < |batches| ensures Tables(batches)[j].fileId != |batches| {
      TableIds(batches, j);
    }
  }

  /** A snapshot closes the batch, writes its three files and never throws. */
  lemma SnapshotState(env: Env, h: History)
    requires env.Valid() && |h.batches| < TWO32
    ensures Snapshot(env, StateOf(env, h)) == Done(StateOf(env, h.Cut()))
  {
    hide SerializeAll, TotalSize, Encode, Register, Bits, AddRows;
    var n, c := |h.batches|, h.Cut();
    assert c.batches[..n] == h.batches && c.batches[n] == h.tail;
    assert c.Logged() == h.Logged() by {
      assert Flatten(c.batches) == Flatten(h.batches) + h.tail;
    }
    NextIdIsFree(h.batches);
    CutFiles(env, h);
    CutMemory(h);
    CutBits(env.shape, h);
  }

  lemma CutBits(s: Shape, h: History)
    requires s.Valid()
    ensures Bits(s, h.Cut().batches) == AddRows(s, Bits(s, h.batches), TableOf(h.tail))
    ensures Tables(h.Cut().batches) == [SegmentIndex(|h.batches|, h.tail)] + Tables(h.batches)
  {
    assert h.Cut().batches[..|h.batches|] == h.batches;
  }

  lemma CutMemory(h: History)
    ensures MemStateOf(h).Clear() == MemStateOf(h.Cut())
  {
    assert h.Cut().batches[..|h.batches|] == h.batches;
    assert h.Cut().Logged() == h.Logged() + [] == h.Logged();
  }

  lemma CutFiles(env: Env, h: History)
    requires env.Valid()
    ensures Chunks(h.Cut().batches)
         == Chunks(h.batches)[|h.batches| := SerializeAll(TableOf(h.tail))]
    ensures IndexFilesOf(env, h.Cut().batches)
         == IndexFilesOf(env, h.batches)[|h.batches| := IndexFile(env, |h.batches|, h.tail)]
  {
    hide SerializeAll, IndexFile, TableOf, Flatten;
    var c, n := h.Cut().batches, |h.batches|;
    assert forall i | 0 <= i < n :: c[i] == h.batches[i];
    assert c[n] == h.tail;
  }

  // ----- A new directory -----

  const NEW_DIRECTORY := Directory(None, Disk(map[], map[], None), [])

  function FreshState(env: Env): (s: State)
    ensures |s.bits| == env.shape.cells
  {
    State(NEW_MEMTABLE.(log := Some(EMPTY_LOG)), Empty(env.shape), [], 0, NEW_DIRECTORY.disk)
  }

  /** Opening a new directory gives the state of the empty history. */
  lemma FreshOpen(env: Env)
    requires env.Valid()
    ensures OpenEngine(env, NEW_DIRECTORY) == Opened(FreshState(env))
    ensures FreshState(env) == StateOf(env, NEW_HISTORY)
  {
    assert NEW_HISTORY.Logged() == [];
    assert Chunks([]) == map[] && IndexFilesOf(env, []) == map[];
  }
}
