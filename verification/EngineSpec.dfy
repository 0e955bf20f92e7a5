/** The storage engine on values: every operation as a function on the engine's
    memory and files. The class StorageEngine is proved against these. */
module EngineSpec {
  import opened Wrappers
  import opened Bytes
  import opened Streams
  import opened Rows
  import opened MemTableSpec
  import opened SSTableIndexes
  import opened Indexes
  import opened BloomFilters
  import opened WriteAheadLogs
  import opened MemTables
  import opened FileNames

  /** What the engine is configured with. Compressor and hashes are arbitrary;
      `None` stands for a compressor that throws. `traverse` is the order in
      which the hash map of an index happens to be enumerated. */
  datatype Env = Env(compress: Data -> Option<Data>, uncompress: Data -> Option<Data>,
                     hash: Data -> UInt128, shape: Shape, limit: nat,
                     traverse: TableIndex -> seq<u64>) {

    ghost predicate Valid() {
      shape.Valid() && forall t :: Traverses(traverse(t), t.hints)
    }
  }

  /** The files, apart from the log; segments and indexes by number. */
  datatype Disk = Disk(chunks: map<nat, seq<byte>>, indexes: map<nat, seq<byte>>,
                       bloom: Option<seq<byte>>)

  datatype State = State(mem: MemState, bits: seq<byte>, tables: seq<TableIndex>,
                         segment: nat, disk: Disk)

  datatype GetResult =
    | Found(value: Data)
    | NotFound
    | ChecksumError
    | UncompressError
    | UndefinedRead

  datatype Effect = Done(state: State) | Thrown(state: State)

  // ----- get -----

  /** The live row the memtable holds for the key. */
  function FindInMemory(s: State, k: u64): Option<Row> {
    match Find(s.mem.entries, k)
    case None => None
    case Some(row) => if row.Live() then Some(row) else None
  }

  /** `seekg` and `read` into a buffer of `size` zeros. */
  function ReadAt(file: seq<byte>, offset: nat, size: nat): (b: seq<byte>)
    ensures |b| == size
  {
    if offset + size <= |file| then file[offset..offset + size]
    else if offset <= |file| then file[offset..] + Zeros(size - (|file| - offset))
    else Zeros(size)
  }

  function ChunkRow(d: Disk, h: SearchHint): DecodeResult {
    var file := if h.fileId in d.chunks then d.chunks[h.fileId] else [];
    Deserialize(Open(ReadAt(file, h.offset, h.size)))
  }

  /** The tail of `get`: check the checksum, then uncompress. */
  function Deliver(env: Env, row: Row): GetResult {
    if env.hash(row.value) != row.checksum then ChecksumError
    else
      match env.uncompress(row.value)
      case None => UncompressError
      case Some(v) => Found(v)
  }

  function DeliverChunk(env: Env, d: DecodeResult): GetResult {
    match d
    case Undefined => UndefinedRead
    case Decoded(row, _) => if row.op == REMOVE then NotFound else Deliver(env, row)
  }

  function FindOnDisk(env: Env, s: State, k: u64): GetResult
    requires env.shape.Valid() && |s.bits| == env.shape.cells
  {
    if !ProbablyContains(env.shape, s.bits, k) then NotFound
    else
      match Search(s.tables, k)
      case None => NotFound
      case Some(h) => DeliverChunk(env, ChunkRow(s.disk, h))
  }

  function Get(env: Env, s: State, k: u64): GetResult
    requires env.shape.Valid() && |s.bits| == env.shape.cells
  {
    match FindInMemory(s, k)
    case Some(row) => Deliver(env, row)
    case None => FindOnDisk(env, s, k)
  }

  // ----- the steps of a snapshot, in the order the engine takes them -----

  function Table(s: State): seq<Row> {
    Scan(s.mem.entries, MAX)
  }

  function WriteChunk(s: State): State {
    s.(segment := s.segment + 1,
       disk := s.disk.(chunks := s.disk.chunks[s.segment := SerializeAll(Table(s))]))
  }

  function ClearMem(s: State): State {
    s.(mem := s.mem.Clear())
  }

  function WriteBloom(s: State): State {
    s.(disk := s.disk.(bloom := Some(s.bits)))
  }

  function WriteIndex(env: Env, s: State, id: nat, t: TableIndex): State
    requires env.Valid()
  {
    s.(disk := s.disk.(indexes := s.disk.indexes[id := Encode(t, env.traverse(t))]))
  }

  /** Registering throws when the file id is taken. */
  function RegisterIndex(s: State, t: TableIndex): Effect {
    if Indexed(s.tables, t.fileId) then Thrown(s) else Done(s.(tables := [t] + s.tables))
  }

  function Snapshot(env: Env, s: State): Effect
    requires env.Valid() && |s.bits| == env.shape.cells
  {
    var id, table := s.segment, Table(s);
    var t := IndexOf(Low32(id), table);
    var s1 := ClearMem(WriteChunk(s));
    var s2 := WriteBloom(s1.(bits := AddRows(env.shape, s1.bits, table)));
    RegisterIndex(WriteIndex(env, s2, id, t), t)
  }

  // ----- put and remove -----

  function PutRow(s: State, row: Row): State {
    s.(mem := s.mem.Put(row))
  }

  function ValueRow(env: Env, k: u64, compressed: Data): Row {
    Row(k, compressed, PUT, env.hash(compressed))
  }

  function Put(env: Env, s: State, k: u64, v: Data): Effect
    requires env.Valid() && |s.bits| == env.shape.cells
  {
    match env.compress(v)
    case None => Thrown(s)
    case Some(c) =>
      var s1 := PutRow(s, ValueRow(env, k, c));
      if s1.mem.size >= env.limit then Snapshot(env, s1) else Done(s1)
  }

  function Remove(s: State, k: u64): State {
    PutRow(s, RemoveRow(k))
  }

  // ----- open -----

  /** What `open` finds: no log in a new directory, else the log's bytes and the
      index files in the order in which the directory scan sorts them. */
  datatype Directory = Directory(wal: Option<seq<byte>>, disk: Disk, order: seq<nat>)

  /** `order` is what a scan of the index directory sorted by path yields. */
  ghost predicate Scanned(d: Directory) {
    && (forall i :: i in d.order <==> i in d.disk.indexes)
    && (forall i, j | 0 <= i < j < |d.order| ::
          LexLess(IndexName(d.order[i]), IndexName(d.order[j])))
  }

  function IndexFiles(indexes: map<nat, seq<byte>>, order: seq<nat>): (files: seq<seq<byte>>)
    requires forall i | i in order :: i in indexes
    ensures |files| == |order|
  {
    seq(|order|, i requires 0 <= i < |order| => indexes[order[i]])
  }

  /** `OpenThrows` is an exception; in `OpenUndefined` a file made a loader read an
      uninitialised entry type or write past a local, and anything may follow. */
  datatype Opened = Opened(state: State) | OpenThrows | OpenUndefined

  function LoadFilter(bits: seq<byte>, bloom: Option<seq<byte>>): (r: seq<byte>)
    ensures |r| == |bits|
  {
    if bloom.Some? then LoadBits(bits, bloom.value) else bits
  }

  /** Replay the log into a memtable that has none yet, then start a new, empty
      log; load the indexes; load the filter. Filter cells and segment number are
      those the engine object had before. */
  function OpenOn(env: Env, bits: seq<byte>, segment: nat, d: Directory): Opened
    requires forall i | i in d.order :: i in d.disk.indexes
  {
    var replayed := if d.wal.Some? then LoadRows(Open(d.wal.value)) else Loaded([]);
    if replayed.LoadUndefined? then OpenUndefined
    else
      match LoadAll([], IndexFiles(d.disk.indexes, d.order))
      case UndefinedFile => OpenUndefined
      case DuplicateId => OpenThrows
      case LoadedTables(tables) =>
        var mem := NEW_MEMTABLE.Restore(replayed.rows).(log := Some(EMPTY_LOG));
        Opened(State(mem, LoadFilter(bits, d.disk.bloom), tables, segment, d.disk))
  }

  /** A new engine object has an empty filter and starts with segment 0. */
  function OpenEngine(env: Env, d: Directory): Opened
    requires forall i | i in d.order :: i in d.disk.indexes
  {
    OpenOn(env, Empty(env.shape), 0, d)
  }
}
