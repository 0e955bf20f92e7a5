/** The engine as a step machine. Writers hold the exclusive lock from their
    insertion to their release; a snapshot under it touches the files and the
    filter cell by cell. Readers take a shared lock for the memtable and for the
    index, and none for the filter and for the segment file. */
module Machine {
  import opened Wrappers
  import opened Bytes
  import opened Rows
  import opened MemTableSpec
  import opened SSTableIndexes
  import opened Indexes
  import opened BloomFilters
  import opened MemTables
  import opened EngineSpec
  import opened Histories
  import opened Models

  /** Where the holder of the exclusive lock is, if there is one. */
  datatype Phase =
    | Unlocked
    | Inserted(put: bool)
    | ChunkWritten(id: nat, table: seq<Row>)
    | Filtering(id: nat, table: seq<Row>, row: nat, probe: nat)
    | BloomWritten(id: nat, table: seq<Row>)
    | IndexWritten(id: nat, table: seq<Row>)

  /** A `get` in progress. `begin` and `look` record the instants of its memtable
      lookup and of its last look at shared memory, for the statements only. */
  datatype Reader =
    | Filter(key: u64, probe: nat, begin: nat)
    | Lookup(key: u64, begin: nat)
    | Fetch(key: u64, hint: SearchHint, begin: nat, look: nat)
    | Finished(key: u64, begin: nat, look: nat, result: GetResult)

  /** `history`, `ops` and `now` are records of the run that no step depends on:
      the rows logged, the puts and removes begun, the number of steps taken. */
  datatype Config = Config(state: State, phase: Phase, readers: map<nat, Reader>,
                           history: History, ops: seq<Op>, now: nat)

  datatype Action =
    | BeginPut(key: u64, value: Data)
    | BeginRemove(key: u64)
    | Release
    | StepWriteChunk
    | StepClear
    | StepSetCell
    | StepNextRow
    | StepWriteBloom
    | StepWriteIndex
    | StepRegister
    | StartGet(id: nat, key: u64)
    | StepTestCell(id: nat)
    | StepLookUp(id: nat)
    | StepFetch(id: nat)

  predicate Enabled(env: Env, c: Config, a: Action) {
    match a
    case BeginPut(k, v) => c.phase.Unlocked? && env.compress(v).Some?
    case BeginRemove(k) => c.phase.Unlocked?
    case Release => c.phase.Inserted? && !(c.phase.put && c.state.mem.size >= env.limit)
    case StepWriteChunk => c.phase.Inserted? && c.phase.put && c.state.mem.size >= env.limit
    case StepClear => c.phase.ChunkWritten?
    case StepSetCell => c.phase.Filtering? && c.phase.row < |c.phase.table| && c.phase.probe < env.shape.probes
    case StepNextRow => c.phase.Filtering? && c.phase.row < |c.phase.table| && c.phase.probe == env.shape.probes
    case StepWriteBloom => c.phase.Filtering? && c.phase.row == |c.phase.table|
    case StepWriteIndex => c.phase.BloomWritten?
    case StepRegister => c.phase.IndexWritten?
      && !Indexed(c.state.tables, IndexOf(Low32(c.phase.id), c.phase.table).fileId)
    case StartGet(r, k) => c.phase.Unlocked? && r !in c.readers
    case StepTestCell(r) => r in c.readers && c.readers[r].Filter? && c.readers[r].probe <= env.shape.probes
    case StepLookUp(r) => c.phase.Unlocked? && r in c.readers && c.readers[r].Lookup?
    case StepFetch(r) => r in c.readers && c.readers[r].Fetch?
  }

  /** The writer's part of a step: shared memory, files, lock. */
  function Write(env: Env, c: Config, a: Action): Config
    requires env.Valid() && |c.state.bits| == env.shape.cells && Enabled(env, c, a)
  {
    var s, h := c.state, c.history;
    match a
    case BeginPut(k, v) =>
      var row := ValueRow(env, k, env.compress(v).value);
      c.(state := PutRow(s, row), history := h.Append(row), ops := c.ops + [PutOp(k, v)],
         phase := Inserted(true))
    case BeginRemove(k) =>
      c.(state := Remove(s, k), history := h.Append(RemoveRow(k)), ops := c.ops + [RemoveOp(k)],
         phase := Inserted(false))
    case Release => c.(phase := Unlocked)
    case StepWriteChunk => c.(state := WriteChunk(s), phase := ChunkWritten(s.segment, Table(s)))
    case StepClear => c.(state := ClearMem(s), phase := Filtering(c.phase.id, c.phase.table, 0, 0))
    case StepSetCell =>
      var cell := env.shape.Probe(c.phase.table[c.phase.row].key, c.phase.probe);
      c.(state := s.(bits := s.bits[cell := 1]), phase := c.phase.(probe := c.phase.probe + 1))
    case StepNextRow => c.(phase := c.phase.(row := c.phase.row + 1, probe := 0))
    case StepWriteBloom => c.(state := WriteBloom(s), phase := BloomWritten(c.phase.id, c.phase.table))
    case StepWriteIndex =>
      var t := IndexOf(Low32(c.phase.id), c.phase.table);
      c.(state := WriteIndex(env, s, c.phase.id, t), phase := IndexWritten(c.phase.id, c.phase.table))
    case StepRegister =>
      var t := IndexOf(Low32(c.phase.id), c.phase.table);
      c.(state := RegisterIndex(s, t).state, history := h.Cut(), phase := Unlocked)
    case _ => c
  }

  /** A reader's step; it changes nothing but the reader. */
  function Read(env: Env, c: Config, r: nat, a: Action): Reader
    requires env.Valid() && |c.state.bits| == env.shape.cells && Enabled(env, c, a)
    requires (a.StepTestCell? || a.StepLookUp? || a.StepFetch?) && a.id == r
  {
    match c.readers[r]
    case Filter(k, p, b) =>
      if p == env.shape.probes then Lookup(k, b)
      else if c.state.bits[env.shape.Probe(k, p)] == 0 then Finished(k, b, c.now, NotFound)
      else Filter(k, p + 1, b)
    case Lookup(k, b) =>
      (match Search(c.state.tables, k)
       case None => Finished(k, b, c.now, NotFound)
       case Some(h) => Fetch(k, h, b, c.now))
    case Fetch(k, h, b, l) => Finished(k, b, l, DeliverChunk(env, ChunkRow(c.state.disk, h)))
    case Finished(_, _, _, _) => c.readers[r]
  }

  /** The locked memtable lookup that starts a `get`. */
  function Begin(env: Env, c: Config, k: u64): Reader {
    match FindInMemory(c.state, k)
    case Some(row) => Finished(k, c.now, c.now, Deliver(env, row))
    case None => Filter(k, 0, c.now)
  }

  function Apply(env: Env, c: Config, a: Action): Config
    requires env.Valid() && |c.state.bits| == env.shape.cells && Enabled(env, c, a)
  {
    var c' := match a
      case StartGet(r, k) => c.(readers := c.readers[r := Begin(env, c, k)])
      case StepTestCell(r) => c.(readers := c.readers[r := Read(env, c, r, a)])
      case StepLookUp(r) => c.(readers := c.readers[r := Read(env, c, r, a)])
      case StepFetch(r) => c.(readers := c.readers[r := Read(env, c, r, a)])
      case _ => Write(env, c, a);
    c'.(now := c.now + 1)
  }

  /** A new directory has been opened; nobody holds the lock, nobody reads. */
  function Start(env: Env): Config
  {
    Config(FreshState(env), Unlocked, map[], NEW_HISTORY, [], 0)
  }

  // ----- The invariant -----

  function Tail(h: History): seq<Row> {
    TableOf(h.tail)
  }

  /** The filter in the middle of a snapshot. */
  function PartialBits(s: Shape, bits: seq<byte>, table: seq<Row>, row: nat, probe: nat): (r: seq<byte>)
    requires s.Valid() && |bits| == s.cells && row <= |table| && probe <= s.probes
    ensures |r| == |bits|
  {
    var before := AddRows(s, bits, table[..row]);
    if row == |table| then before else SetTo(s, before, table[row].key, probe)
  }

  ghost predicate PhaseFits(env: Env, h: History, p: Phase) {
    match p
    case Unlocked => true
    case Inserted(_) => true
    case ChunkWritten(id, t) => id == |h.batches| && t == Tail(h)
    case Filtering(id, t, row, probe) =>
      id == |h.batches| && t == Tail(h) && row <= |t| && probe <= env.shape.probes
      && (row == |t| ==> probe == 0)
    case BloomWritten(id, t) => id == |h.batches| && t == Tail(h)
    case IndexWritten(id, t) => id == |h.batches| && t == Tail(h)
  }

  /** The state after the chunk has been written and the memtable cleared, with
      the given filter. */
  ghost function Cleared(env: Env, h: History, bits: seq<byte>): State
    requires env.Valid()
  {
    ClearMem(WriteChunk(StateOf(env, h))).(bits := bits)
  }

  /** The whole shared state, as a function of history and phase. */
  ghost function PhaseState(env: Env, h: History, p: Phase): State
    requires env.Valid() && PhaseFits(env, h, p)
  {
    var b := Bits(env.shape, h.batches);
    match p
    case Unlocked => StateOf(env, h)
    case Inserted(_) => StateOf(env, h)
    case ChunkWritten(_, _) => WriteChunk(StateOf(env, h))
    case Filtering(_, t, row, probe) => Cleared(env, h, PartialBits(env.shape, b, t, row, probe))
    case BloomWritten(_, t) => WriteBloom(Cleared(env, h, AddRows(env.shape, b, t)))
    case IndexWritten(id, t) =>
      WriteIndex(env, WriteBloom(Cleared(env, h, AddRows(env.shape, b, t))), id, SegmentIndex(id, h.tail))
  }

  ghost predicate Inv(env: Env, c: Config)
    requires env.Valid()
  {
    PhaseFits(env, c.history, c.phase) && c.state == PhaseState(env, c.history, c.phase)
  }

  lemma StateTable(env: Env, h: History)
    requires env.Valid()
    ensures Table(StateOf(env, h)) == Tail(h) && StateOf(env, h).segment == |h.batches|
  {
  }

  lemma InvBits(env: Env, c: Config)
    requires env.Valid() && Inv(env, c)
    ensures |c.state.bits| == env.shape.cells
  {
    hide StateOf, AddRows, SetTo, Encode, SegmentIndex;
  }

  lemma NextRowBits(s: Shape, bits: seq<byte>, table: seq<Row>, row: nat)
    requires s.Valid() && |bits| == s.cells && row < |table|
    ensures PartialBits(s, bits, table, row, s.probes) == PartialBits(s, bits, table, row + 1, 0)
  {
    var before := AddRows(s, bits, table[..row]);
    SetToThenFrom(s, before, table[row].key, s.probes);
    AddRowsConcat(s, bits, table[..row], [table[row]]);
    assert table[..row] + [table[row]] == table[..row + 1];
    assert AddRows(s, before, [table[row]]) == AddRows(s, Add(s, before, table[row].key), []);
  }

  /** Every step of every writer keeps the invariant; the small steps of a
      snapshot add up to closing the batch. */
  lemma WriteKeeps(env: Env, c: Config, a: Action)
    requires env.Valid() && Inv(env, c) && |c.state.bits| == env.shape.cells && Enabled(env, c, a)
    requires a.StepRegister? ==> |c.history.batches| < TWO32
    ensures Inv(env, Write(env, c, a))
  {
    hide StateOf, AddRows, SetTo, Encode, SegmentIndex, SerializeAll, TableOf, Table;
    var h := c.history;
    match a
    case BeginPut(k, v) => AppendState(env, h, ValueRow(env, k, env.compress(v).value));
    case BeginRemove(k) => AppendState(env, h, RemoveRow(k));
    case StepWriteChunk => StateTable(env, h);
    case StepClear => FirstBits(env.shape, Bits(env.shape, h.batches), c.phase.table);
      BitsOfState(env, h);
    case StepSetCell => SetCellBits(env.shape, Bits(env.shape, h.batches), c.phase);
    case StepNextRow => NextRowBits(env.shape, Bits(env.shape, h.batches), c.phase.table, c.phase.row);
    case StepWriteBloom => assert c.phase.table[..|c.phase.table|] == c.phase.table;
    case StepWriteIndex => SegmentIs(h);
    case StepRegister => RegisterKeeps(env, h);
    case _ =>
  }

  lemma BitsOfState(env: Env, h: History)
    requires env.Valid()
    ensures ClearMem(WriteChunk(StateOf(env, h))) == Cleared(env, h, Bits(env.shape, h.batches))
  {
  }

  lemma FirstBits(s: Shape, bits: seq<byte>, table: seq<Row>)
    requires s.Valid() && |bits| == s.cells
    ensures PartialBits(s, bits, table, 0, 0) == bits
  {
    assert table[..0] == [];
  }

  lemma SetCellBits(s: Shape, bits: seq<byte>, p: Phase)
    requires s.Valid() && |bits| == s.cells && p.Filtering? && p.row < |p.table| && p.probe < s.probes
    ensures PartialBits(s, bits, p.table, p.row, p.probe + 1)
         == PartialBits(s, bits, p.table, p.row, p.probe)[s.Probe(p.table[p.row].key, p.probe) := 1]
  {
  }

  lemma SegmentIs(h: History)
    ensures SegmentIndex(|h.batches|, h.tail) == IndexOf(Low32(|h.batches|), Tail(h))
  {
  }

  lemma RegisterKeeps(env: Env, h: History)
    requires env.Valid() && |h.batches| < TWO32
    ensures RegisterIndex(PhaseState(env, h, IndexWritten(|h.batches|, Tail(h))),
                          IndexOf(Low32(|h.batches|), Tail(h))) == Done(StateOf(env, h.Cut()))
  {
    SnapshotState(env, h);
    BitsOfState(env, h);
  }

  /** The order in which a snapshot does its work, told by what there is at each stage:
      the segment file while the memtable is still full and its rows unflushed; then the
      memtable empty and everything flushed, the bloom file still the old one; then the
      new bloom file and no index file; then the index file, not yet registered. */
  lemma StagesInOrder(env: Env, c: Config)
    requires env.Valid() && Inv(env, c)
    ensures var s, h, n := c.state, c.history, |c.history.batches|;
            && s.mem.log.Some? && s.tables == Tables(h.batches)
            && (c.phase.Unlocked? || c.phase.Inserted? ==>
                  s.disk == DiskOf(env, h.batches) && s.segment == n)
            && (!c.phase.Unlocked? && !c.phase.Inserted? ==>
                  s.segment == n + 1 && s.disk.chunks == Chunks(h.batches)[n := SerializeAll(TableOf(h.tail))])
            && (c.phase.Unlocked? || c.phase.Inserted? || c.phase.ChunkWritten? ==>
                  s.mem == MemStateOf(h) && s.mem.log.value.flushed == TotalSize(Flatten(h.batches))
                  && s.bits == Bits(env.shape, h.batches))
            && (c.phase.Filtering? || c.phase.BloomWritten? || c.phase.IndexWritten? ==>
                  s.mem.entries == [] && s.mem.counter == 0 && s.mem.size == 0
                  && s.mem.log.value.flushed == |s.mem.log.value.written|
                  && s.mem.log.value.written == SerializeAll(h.Logged()))
            && (c.phase.ChunkWritten? || c.phase.Filtering? ==> s.disk.bloom == DiskOf(env, h.batches).bloom)
            && (c.phase.BloomWritten? || c.phase.IndexWritten? ==>
                  s.disk.bloom == Some(s.bits) && s.bits == AddRows(env.shape, Bits(env.shape, h.batches), Tail(h)))
            && (!c.phase.IndexWritten? ==> s.disk.indexes == IndexFilesOf(env, h.batches))
            && (c.phase.IndexWritten? ==>
                  s.disk.indexes == IndexFilesOf(env, h.batches)[n := IndexFile(env, n, h.tail)])
  {
    hide SerializeAll, TableOf, MemOf, Bits, Tables, AddRows, PartialBits, Encode, SegmentIndex, Flatten,
         TotalSize, History.Logged;
    StateTable(env, c.history);
  }
}
