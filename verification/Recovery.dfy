/** Reopening the files a first session leaves behind, cleanly closed or stopped
    between any two file writes. */
module Recovery {
  import opened Wrappers
  import opened Bytes
  import opened Rows
  import opened Records
  import opened MemTableSpec
  import opened SSTableIndexes
  import opened Indexes
  import opened BloomFilters
  import opened WriteAheadLogs
  import opened MemTables
  import opened FileNames
  import opened EngineSpec
  import opened EngineFacts
  import opened Histories
  import opened Reads
  import opened Machine

  // ----- What a session leaves on disk -----

  /** The batches whose index file has been written. */
  function OnDisk(c: Config): seq<seq<Row>> {
    if c.phase.IndexWritten? then c.history.Cut().batches else c.history.batches
  }

  /** The bloom file covers every key of the given segments. */
  ghost predicate Covers(s: Shape, bloom: Option<seq<byte>>, batches: seq<seq<Row>>)
    requires s.Valid()
  {
    batches != [] ==>
      && bloom.Some? && |bloom.value| == s.cells
      && forall k | DiskNewest(batches, k).Some? :: ProbablyContains(s, bloom.value, k)
  }

  lemma BitsCover(s: Shape, batches: seq<seq<Row>>, more: seq<seq<Row>>)
    requires s.Valid() && batches <= more
    ensures Covers(s, Some(Bits(s, more)), batches)
  {
    hide ProbablyContains, Bits, DiskNewest;
    forall k | DiskNewest(batches, k).Some? ensures ProbablyContains(s, Bits(s, more), k) {
      NewestGrows(batches, more, k);
      FilterPasses(s, more, k);
    }
  }

  lemma {:induction false} NewestGrows(batches: seq<seq<Row>>, more: seq<seq<Row>>, k: u64)
    requires batches <= more && DiskNewest(batches, k).Some?
    ensures DiskNewest(more, k).Some?
    decreases more
  {
    hide TableOf;
    if |batches| < |more| {
      NewestGrows(batches, more[..|more| - 1], k);
    } else {
      assert batches == more;
    }
  }

  /** At every instant: the index files are those of the registered segments, each
      has its segment file, and the bloom file covers them. */
  lemma DiskFacts(env: Env, c: Config)
    requires env.Valid() && Inv(env, c)
    ensures c.state.disk.indexes == IndexFilesOf(env, OnDisk(c))
    ensures HasChunks(c.state.disk, OnDisk(c))
    ensures Covers(env.shape, c.state.disk.bloom, OnDisk(c))
  {
    hide SerializeAll, TableOf, MemStateOf, Bits, Tables, AddRows, PartialBits, IndexFile, Encode,
         Table, SegmentIndex, Covers, HasChunks;
    var h := c.history;
    CutFiles(env, h);
    ChunksAre(c.state.disk, OnDisk(c));
    BitsCover(env.shape, OnDisk(c), OnDisk(c));
    BitsCover(env.shape, h.batches, h.Cut().batches);
    CutBits(env.shape, h);
    NothingToCover(env.shape);
    StateTable(env, h);
    IndexFileIs(env, |h.batches|, h.tail);
    PhaseChunkMap(env, c);
  }

  lemma IndexFileIs(env: Env, i: nat, batch: seq<Row>)
    requires env.Valid()
    ensures IndexFile(env, i, batch) == Encode(SegmentIndex(i, batch), env.traverse(SegmentIndex(i, batch)))
  {
  }

  lemma NothingToCover(s: Shape)
    requires s.Valid()
    ensures Covers(s, None, [])
  {
  }

  lemma ChunksAre(d: Disk, batches: seq<seq<Row>>)
    ensures (forall i | i in Chunks(batches) :: i in d.chunks && d.chunks[i] == Chunks(batches)[i])
         ==> HasChunks(d, batches)
  {
    hide SerializeAll, TableOf;
  }

  lemma PhaseChunkMap(env: Env, c: Config)
    requires env.Valid() && Inv(env, c)
    ensures forall i | i in Chunks(OnDisk(c)) ::
              i in c.state.disk.chunks && c.state.disk.chunks[i] == Chunks(OnDisk(c))[i]
  {
    hide SerializeAll, TableOf, MemStateOf, Bits, Tables, AddRows, PartialBits, IndexFile, Encode,
         Table, SegmentIndex, IndexFilesOf;
    StateTable(env, c.history);
    CutFiles(env, c.history);
  }

  // ----- The log is ahead of the segments -----

  function Logged(c: Config): seq<Row> {
    c.history.Logged()
  }

  /** Everything in a registered segment had been flushed to the log before. */
  lemma LogFirst(env: Env, c: Config)
    requires env.Valid() && Inv(env, c)
    ensures c.state.mem.log.Some?
    ensures Flatten(OnDisk(c)) <= Logged(c)
    ensures TotalSize(Flatten(OnDisk(c))) <= c.state.mem.log.value.flushed
  {
    hide SerializeAll, TotalSize, Flatten, Inv, Tables, DiskOf, Chunks, Bits, AddRows, IndexFilesOf, IndexFile,
         MemStateOf, TableOf;
    var h := c.history;
    StagesInOrder(env, c);
    FlattenCut(h);
    TotalSizeConcat(Flatten(h.batches), h.tail);
    if c.phase.Filtering? || c.phase.BloomWritten? || c.phase.IndexWritten? {
      assert c.state.mem.log.value.flushed == TotalSize(h.Logged());
    }
  }

  lemma FlattenCut(h: History)
    ensures Flatten(h.Cut().batches) == h.Logged()
  {
    assert h.Cut().batches[..|h.batches|] == h.batches;
  }

  lemma {:induction false} SizesArePositive(rows: seq<Row>)
    requires rows != []
    ensures TotalSize(rows) > 0
  {
  }

  /** A durable prefix of the log that holds all flushed bytes holds every row of
      every registered segment. */
  lemma PrefixHolds(all: seq<Row>, part: seq<Row>, d: nat)
    requires part <= all && d <= |all| && TotalSize(part) <= TotalSize(all[..d])
    ensures part <= all[..d]
  {
    if d < |part| {
      assert part == part[..d] + part[d..] && part[..d] == all[..d];
      TotalSizeConcat(part[..d], part[d..]);
      SizesArePositive(part[d..]);
    }
  }

  // ----- The image of a crash -----

  /** The first session stopped at `c`; of the log its first `d` rows and at least
      the flushed bytes survive, and of the bloom file anything; the directory is
      then scanned in path order. */
  ghost predicate Image(c: Config, d: nat, dir: Directory) {
    && c.state.mem.log.Some? && d <= |Logged(c)|
    && dir.wal == Some(SerializeAll(Logged(c)[..d]))
    && |SerializeAll(Logged(c)[..d])| >= c.state.mem.log.value.flushed
    && dir.disk.chunks == c.state.disk.chunks && dir.disk.indexes == c.state.disk.indexes
    && Scanned(dir)
  }

  /** Whatever part of the log beyond the flushed bytes is left, and whatever bytes of
      the bloom file: there is such a directory. */
  lemma ImageExists(env: Env, c: Config, d: nat, bloom: Option<seq<byte>>) returns (dir: Directory)
    requires env.Valid() && Inv(env, c) && d <= |Logged(c)|
    requires c.state.mem.log.Some? && TotalSize(Logged(c)[..d]) >= c.state.mem.log.value.flushed
    ensures Image(c, d, dir) && dir.disk.bloom == bloom
  {
    hide Inv, IndexFile, SerializeAll, TotalSize, OnDisk, Logged, ScanOf, LexLess, IndexName;
    DiskFacts(env, c);
    PathOrderExists(|OnDisk(c)|);
    dir := Directory(Some(SerializeAll(Logged(c)[..d])), c.state.disk.(bloom := bloom), ScanOf(|OnDisk(c)|));
  }

  /** The whole log is always such a part. */
  lemma WholeLogIsLeft(env: Env, c: Config)
    requires env.Valid() && Inv(env, c)
    ensures c.state.mem.log.Some?
    ensures TotalSize(Logged(c)[..|Logged(c)|]) >= c.state.mem.log.value.flushed
  {
    hide SerializeAll, TableOf, Bits, Tables, DiskOf, AddRows, PartialBits, IndexFile, Encode, Table,
         SegmentIndex, TotalSize;
    assert Logged(c)[..|Logged(c)|] == Logged(c);
    TotalSizeConcat(Flatten(c.history.batches), c.history.tail);
  }

  /** A batch of which a snapshot writes nothing. */
  predicate Vanishes(batch: seq<Row>) {
    batch == [] || SentinelOnly(batch)
  }

  /** Empty segments come from an empty memtable and from one of nothing but MAX. */
  lemma EmptySegment(batch: seq<Row>)
    ensures TableOf(batch) == [] <==> Vanishes(batch)
  {
    hide TableOf;
    if batch == [] {
      NothingToScan();
    } else {
      TableLookup(batch, batch[0].key);
      assert batch[0] in batch;
      if SentinelOnly(batch) && TableOf(batch) != [] {
        TableLookup(batch, TableOf(batch)[0].key);
      }
    }
  }

  lemma NothingToScan()
    ensures TableOf([]) == []
  {
  }

  /** What an index file loads as. */
  ghost function LoadedTable(i: nat, batch: seq<Row>): TableIndex {
    if TableOf(batch) == [] then TableIndex(Low32(i), map[0 := Hint(0, 0)]) else SegmentIndex(i, batch)
  }

  lemma FileLoads(env: Env, i: nat, batch: seq<Row>)
    requires env.Valid()
    ensures LoadIndex(IndexFile(env, i, batch)) == IndexLoaded(LoadedTable(i, batch))
  {
    hide LoadIndex, Encode, TableOf;
    WrittenIndexLoads(env, Low32(i), TableOf(batch));
  }

  ghost predicate InRange(order: seq<nat>, n: nat) {
    forall j | 0 <= j < |order| :: order[j] < n
  }

  /** The list after loading the segments in the given order. */
  ghost function ListOf(batches: seq<seq<Row>>, order: seq<nat>): (l: seq<TableIndex>)
    requires InRange(order, |batches|)
    ensures |l| == |order|
  {
    if order == [] then []
    else
      var n := |order| - 1;
      [LoadedTable(order[n], batches[order[n]])] + ListOf(batches, order[..n])
  }

  lemma {:induction false} ListIds(batches: seq<seq<Row>>, order: seq<nat>, id: u32)
    requires |batches| <= TWO32 && InRange(order, |batches|)
    ensures Indexes.Indexed(ListOf(batches, order), id) <==> id in order
  {
    hide LoadedTable;
    if order != [] {
      var n := |order| - 1;
      var l := ListOf(batches, order);
      ListIds(batches, order[..n], id);
      assert l[1..] == ListOf(batches, order[..n]);
      LoadedId(order[n], batches[order[n]]);
      assert order == order[..n] + [order[n]];
      IndexedCons(l, id);
    }
  }

  lemma {:induction false} LoadAllLoads(env: Env, batches: seq<seq<Row>>, order: seq<nat>, n: nat)
    requires env.Valid() && |batches| <= TWO32 && n <= |order|
    requires InRange(order, |batches|)
    requires forall i, j | 0 <= i < j < |order| :: order[i] != order[j]
    ensures LoadAll(ListOf(batches, order[..n]), IndexFiles(IndexFilesOf(env, batches), order)[n..])
         == LoadedTables(ListOf(batches, order))
    decreases |order| - n
  {
    hide LoadIndex, IndexFile, LoadedTable;
    var files := IndexFiles(IndexFilesOf(env, batches), order);
    if n == |order| {
      assert order[..n] == order && files[n..] == [];
    } else {
      var i := order[n];
      assert i in order;
      FileLoads(env, i, batches[i]);
      assert files[n..][0] == IndexFile(env, i, batches[i]);
      assert files[n..][1..] == files[n + 1..];
      assert order[..n + 1][..n] == order[..n];
      LoadedId(i, batches[i]);
      ListIds(batches, order[..n], i);
      LoadAllLoads(env, batches, order, n + 1);
    }
  }

  lemma LoadedId(i: nat, batch: seq<Row>)
    ensures LoadedTable(i, batch).fileId == Low32(i)
  {
    hide TableOf, Register;
  }

  // ----- Opening the image -----

  ghost function Recovered(env: Env, c: Config, d: nat, dir: Directory): (s: State)
    requires env.Valid() && d <= |Logged(c)| && InRange(dir.order, |OnDisk(c)|)
    ensures |s.bits| == env.shape.cells
  {
    State(MemState(MemOf(Logged(c)[..d]), d, 0, Some(EMPTY_LOG)),
          LoadFilter(Empty(env.shape), dir.disk.bloom), ListOf(OnDisk(c), dir.order), 0, dir.disk)
  }

  lemma ImageOrder(env: Env, c: Config, d: nat, dir: Directory)
    requires env.Valid() && Inv(env, c) && Image(c, d, dir)
    ensures PathOrder(dir.order, |OnDisk(c)|)
    ensures InRange(dir.order, |OnDisk(c)|)
  {
    hide IndexFile, Inv;
    DiskFacts(env, c);
    assert forall j | 0 <= j < |dir.order| :: dir.order[j] in dir.order;
  }

  /** Opening succeeds exactly when at least one row survived: an empty log file is
      still decoded once, into an uninitialised row. */
  lemma OpenImage(env: Env, c: Config, d: nat, dir: Directory)
    requires env.Valid() && Inv(env, c) && |OnDisk(c)| <= TWO32 && Image(c, d, dir)
    requires InRange(dir.order, |OnDisk(c)|)
    ensures OpenEngine(env, dir) == if d == 0 then OpenUndefined else Opened(Recovered(env, c, d, dir))
  {
    hide Inv, IndexFilesOf, LoadRows, ListOf, LoadAll, LoadFilter, InsertAll, SerializeAll, PathOrder, OnDisk,
         Logged;
    var rows := Logged(c)[..d];
    ImageOrder(env, c, d, dir);
    PathOrderDistinct(dir.order, |OnDisk(c)|);
    DiskFacts(env, c);
    LoadAllLoads(env, OnDisk(c), dir.order, 0);
    NothingLoaded(OnDisk(c), dir.order);
    var files := IndexFiles(dir.disk.indexes, dir.order);
    assert files[0..] == files;
    if d == 0 {
      assert rows == [];
      EmptyStreamIsUndefined();
    } else {
      StreamRoundTrip(rows);
    }
  }

  lemma NothingLoaded(batches: seq<seq<Row>>, order: seq<nat>)
    ensures ListOf(batches, order[..0]) == []
  {
  }

  // ----- What the loaded list answers -----

  /** The batches in the order in which their segments are loaded. */
  ghost function Listed(batches: seq<seq<Row>>, order: seq<nat>): (l: seq<seq<Row>>)
    requires InRange(order, |batches|)
    ensures |l| == |order|
  {
    seq(|order|, i requires 0 <= i < |order| => batches[order[i]])
  }

  /** Key 0 has been forged: the bogus hint of an empty segment stands in front of
      every segment that holds the key. */
  ghost predicate ZeroForged(listed: seq<seq<Row>>) {
    exists i: nat :: ForgedAt(listed, i)
  }

  ghost predicate ForgedAt(listed: seq<seq<Row>>, i: nat) {
    i < |listed| && Vanishes(listed[i]) && forall j | i < j < |listed| :: Newest(listed[j], 0).None?
  }

  lemma VanishedHasNoZero(batch: seq<Row>)
    requires Vanishes(batch)
    ensures Newest(batch, 0).None?
  {
  }

  lemma ForgedNext(listed: seq<seq<Row>>, batch: seq<Row>)
    ensures ZeroForged(listed + [batch])
       <==> Vanishes(batch) || (Newest(batch, 0).None? && ZeroForged(listed))
  {
    hide Vanishes;
    var all, n := listed + [batch], |listed|;
    assert forall j | 0 <= j < n :: all[j] == listed[j];
    if Vanishes(batch) {
      assert ForgedAt(all, n);
    } else {
      if i: nat :| ForgedAt(all, i) {
        assert all[n] == batch && i < n;
        assert ForgedAt(listed, i);
      }
      if i: nat :| ForgedAt(listed, i) {
        assert Newest(batch, 0).None? ==> ForgedAt(all, i);
      }
    }
  }

  /** The last listed segment that holds the key answers, or the forged hint does. */
  ghost predicate Leads(tables: seq<TableIndex>, listed: seq<seq<Row>>, k: u64, d: Disk) {
    match Search(tables, k)
    case None => DiskNewest(listed, k).None? && !(k == 0 && ZeroForged(listed))
    case Some(h) =>
      if k == 0 && ZeroForged(listed) then ChunkRow(d, h).Undefined?
      else ChunkRow(d, h).Decoded? && DiskNewest(listed, k) == Some(ChunkRow(d, h).row)
  }

  lemma BogusPlace(d: Disk, id: u32)
    ensures ChunkRow(d, SearchHint(id, 0, 0)).Undefined?
  {
    assert ReadAt(if id in d.chunks then d.chunks[id] else [], 0, 0) == [];
  }

  lemma LeadsNext(i: nat, batch: seq<Row>, tables: seq<TableIndex>, listed: seq<seq<Row>>, k: u64, d: Disk)
    requires Leads(tables, listed, k, d) && HintsFit(TableOf(batch)) && i < TWO32
    requires i in d.chunks && d.chunks[i] == SerializeAll(TableOf(batch))
    ensures Leads([LoadedTable(i, batch)] + tables, listed + [batch], k, d)
  {
    hide ChunkRow, SerializeAll, TableOf, HintsFit, RowFits, SegmentIndex, Search, DiskNewest, ZeroForged,
         Vanishes;
    LoadedId(i, batch);
    SearchCons(LoadedTable(i, batch), tables, k);
    ForgedNext(listed, batch);
    EmptySegment(batch);
    DiskNewestNext(listed, batch, k);
    TableLookup(batch, k);
    if TableOf(batch) == [] {
      BogusPlace(d, i);
      VanishedHasNoZero(batch);
    } else {
      if First(TableOf(batch), k).Some? {
        PlaceFits(TableOf(batch), k);
      }
      SegmentRow(i, batch, k, d);
      VanishedIsNot(batch);
    }
  }

  lemma VanishedIsNot(batch: seq<Row>)
    requires !Vanishes(batch)
    ensures !SentinelOnly(batch)
  {
  }

  lemma DiskNewestNext(listed: seq<seq<Row>>, batch: seq<Row>, k: u64)
    ensures DiskNewest(listed + [batch], k) == OrElse(First(TableOf(batch), k), DiskNewest(listed, k))
  {
    hide TableOf;
    assert (listed + [batch])[..|listed|] == listed;
  }

  lemma {:induction false} ListLeads(batches: seq<seq<Row>>, order: seq<nat>, k: u64, d: Disk)
    requires Fits(batches) && HasChunks(d, batches) && InRange(order, |batches|)
    ensures Leads(ListOf(batches, order), Listed(batches, order), k, d)
  {
    hide TableOf, HintsFit, SegmentIndex, LoadedTable, SerializeAll, Leads;
    if order == [] {
      NothingLeads(k, d);
    } else {
      var n := |order| - 1;
      ListLeads(batches, order[..n], k, d);
      assert Listed(batches, order) == Listed(batches, order[..n]) + [batches[order[n]]];
      LeadsNext(order[n], batches[order[n]], ListOf(batches, order[..n]), Listed(batches, order[..n]), k, d);
    }
  }

  lemma NothingLeads(k: u64, d: Disk)
    ensures Leads([], [], k, d)
  {
  }

  // ----- Reading after opening -----

  /** What the filter says after the bloom file has been loaded. */
  predicate Passes(env: Env, bloom: Option<seq<byte>>, k: u64)
    requires env.shape.Valid()
  {
    ProbablyContains(env.shape, LoadFilter(Empty(env.shape), bloom), k)
  }

  /** A read of key 0 that the filter lets through to a forged hint. */
  ghost predicate ReadsForged(env: Env, listed: seq<seq<Row>>, bloom: Option<seq<byte>>, k: u64)
    requires env.shape.Valid()
  {
    k == 0 && Passes(env, bloom, 0) && ZeroForged(listed)
  }

  /** What a read finds after reopening: in the memtable the last row of the log
      that survived, and on disk, when the filter lets it through, the row of the
      last segment in path order that holds the key. */
  ghost function RecoveredAnswer(env: Env, rows: seq<Row>, listed: seq<seq<Row>>,
                                 bloom: Option<seq<byte>>, k: u64): GetResult
    requires env.shape.Valid()
  {
    if LiveOnly(Newest(rows, k)).Some? then Deliver(env, Newest(rows, k).value)
    else if !Passes(env, bloom, k) then NotFound
    else if k == 0 && ZeroForged(listed) then UndefinedRead
    else DeliverSeen(env, LiveOnly(DiskNewest(listed, k)))
  }

  lemma RecoveredMemory(env: Env, c: Config, d: nat, dir: Directory, k: u64)
    requires env.Valid() && d <= |Logged(c)| && InRange(dir.order, |OnDisk(c)|)
    ensures FindInMemory(Recovered(env, c, d, dir), k) == LiveOnly(Newest(Logged(c)[..d], k))
  {
    hide Find, MemOf, ListOf;
    LookupIsNewest(Logged(c)[..d], k);
  }

  lemma RecoveredDisk(env: Env, c: Config, d: nat, dir: Directory, k: u64)
    requires env.Valid() && Inv(env, c) && Fits(OnDisk(c)) && Image(c, d, dir)
    requires InRange(dir.order, |OnDisk(c)|)
    ensures FindOnDisk(env, Recovered(env, c, d, dir), k)
         == if !Passes(env, dir.disk.bloom, k) then NotFound
            else if k == 0 && ZeroForged(Listed(OnDisk(c), dir.order)) then UndefinedRead
            else DeliverSeen(env, LiveOnly(DiskNewest(Listed(OnDisk(c), dir.order), k)))
  {
    hide Inv, Image, Deliver, ChunkRow, TableOf, OnDisk, Logged, MemOf, HintsFit, DiskNewest, ProbablyContains,
         Search, ZeroForged, ListOf, SerializeAll;
    DiskFacts(env, c);
    ImageParts(c, d, dir);
    assert HasChunks(dir.disk, OnDisk(c));
    ListLeads(OnDisk(c), dir.order, k, dir.disk);
  }

  /** The exact meaning of a read after reopening, for any number of segments and
      whatever was removed when. */
  lemma RecoveredGet(env: Env, c: Config, d: nat, dir: Directory, k: u64)
    requires env.Valid() && Inv(env, c) && Fits(OnDisk(c)) && Image(c, d, dir) && d > 0
    ensures InRange(dir.order, |OnDisk(c)|)
    ensures OpenEngine(env, dir).Opened?
    ensures Get(env, OpenEngine(env, dir).state, k)
         == RecoveredAnswer(env, Logged(c)[..d], Listed(OnDisk(c), dir.order), dir.disk.bloom, k)
  {
    hide Inv, Image, OpenEngine, Deliver, FindOnDisk, FindInMemory, OnDisk, Logged, HintsFit, Recovered, Passes,
         ZeroForged, DiskNewest;
    ImageOrder(env, c, d, dir);
    ImageParts(c, d, dir);
    RecoveredMemory(env, c, d, dir, k);
    OpenImage(env, c, d, dir);
    RecoveredDisk(env, c, d, dir, k);
  }

  /** A key whose last surviving operation is a put reads that value, with any
      number of segments, whatever else happened to the key. */
  lemma PutsSurvive(env: Env, c: Config, d: nat, dir: Directory, k: u64)
    requires env.Valid() && Inv(env, c) && |OnDisk(c)| <= TWO32 && Image(c, d, dir)
    requires LiveOnly(Newest(Logged(c)[..d], k)).Some?
    ensures OpenEngine(env, dir).Opened?
    ensures Get(env, OpenEngine(env, dir).state, k) == Deliver(env, Newest(Logged(c)[..d], k).value)
  {
    hide Inv, Image, Recovered, OpenEngine, Deliver, OnDisk;
    ImageParts(c, d, dir);
    ImageOrder(env, c, d, dir);
    RecoveredMemory(env, c, d, dir, k);
    OpenImage(env, c, d, dir);
  }

  lemma {:induction false} FlatNone(batches: seq<seq<Row>>, i: nat, k: u64)
    requires i < |batches| && Newest(Flatten(batches), k).None?
    ensures First(TableOf(batches[i]), k).None?
  {
    hide TableOf, Newest;
    var n := |batches| - 1;
    NewestOfConcat(Flatten(batches[..n]), batches[n], k);
    if i < n {
      assert batches[..n][i] == batches[i];
      FlatNone(batches[..n], i, k);
    } else {
      TableLookup(batches[n], k);
    }
  }

  lemma {:induction false} NoneListed(listed: seq<seq<Row>>, k: u64)
    requires forall i | 0 <= i < |listed| :: First(TableOf(listed[i]), k).None?
    ensures DiskNewest(listed, k).None?
  {
    hide TableOf;
    if listed != [] {
      NoneListed(listed[..|listed| - 1], k);
    }
  }

  lemma PrefixNewest(part: seq<Row>, rows: seq<Row>, k: u64)
    requires part <= rows
    ensures Newest(rows, k) == OrElse(Newest(rows[|part|..], k), Newest(part, k))
  {
    assert rows == part + rows[|part|..];
    NewestOfConcat(part, rows[|part|..], k);
  }

  lemma DurablePart(env: Env, c: Config, d: nat, dir: Directory)
    requires env.Valid() && Inv(env, c) && Image(c, d, dir)
    ensures Flatten(OnDisk(c)) <= Logged(c)[..d]
  {
    hide Inv, SerializeAll, OnDisk, Logged, TotalSize;
    LogFirst(env, c);
    PrefixHolds(Logged(c), Flatten(OnDisk(c)), d);
  }

  /** A key that no surviving row mentions is not found, with any number of segments
      and whatever was removed when; only key 0 can be forged. */
  lemma NeverWrittenIsNotFound(env: Env, c: Config, d: nat, dir: Directory, k: u64)
    requires env.Valid() && Inv(env, c) && Fits(OnDisk(c)) && Image(c, d, dir) && d > 0
    requires Newest(Logged(c)[..d], k).None?
    ensures InRange(dir.order, |OnDisk(c)|)
    ensures OpenEngine(env, dir).Opened?
    ensures Get(env, OpenEngine(env, dir).state, k)
         == if ReadsForged(env, Listed(OnDisk(c), dir.order), dir.disk.bloom, k) then UndefinedRead
            else NotFound
  {
    hide Inv, Image, OpenEngine, TableOf, OnDisk, Logged, HintsFit, ZeroForged, Passes, Get;
    ImageParts(c, d, dir);
    RecoveredGet(env, c, d, dir, k);
    DurablePart(env, c, d, dir);
    PrefixNewest(Flatten(OnDisk(c)), Logged(c)[..d], k);
    var listed := Listed(OnDisk(c), dir.order);
    forall i | 0 <= i < |listed| ensures First(TableOf(listed[i]), k).None? {
      FlatNone(OnDisk(c), dir.order[i], k);
    }
    NoneListed(listed, k);
  }

  // ----- Up to ten segments -----

  lemma {:induction false} ListIsLive(batches: seq<seq<Row>>, order: seq<nat>, n: nat)
    requires InRange(order, |batches|)
    requires n <= |order| == |batches| && forall i | 0 <= i < n :: order[i] == i
    ensures ListOf(batches, order[..n]) == Tables(batches[..n])
       <==> forall i | 0 <= i < n :: !Vanishes(batches[i])
  {
    hide TableOf, SegmentIndex, Vanishes, LoadedTable;
    if n > 0 {
      ListIsLive(batches, order, n - 1);
      assert order[..n][..n - 1] == order[..n - 1];
      assert batches[..n][..n - 1] == batches[..n - 1];
      var a, b := ListOf(batches, order[..n]), Tables(batches[..n]);
      assert a[1..] == ListOf(batches, order[..n - 1]) && b[1..] == Tables(batches[..n - 1]);
      LoadedIsLive(n - 1, batches[n - 1]);
    }
  }

  lemma LoadedIsLive(i: nat, batch: seq<Row>)
    ensures LoadedTable(i, batch) == SegmentIndex(i, batch) <==> !Vanishes(batch)
  {
    hide TableOf, Vanishes;
    EmptySegment(batch);
    if TableOf(batch) == [] {
      assert SegmentIndex(i, batch).hints == map[];
      assert 0 in LoadedTable(i, batch).hints;
    }
  }

  /** With at most ten segments the list comes back as it was exactly when no
      snapshot wrote an empty segment. */
  lemma LiveListRestored(batches: seq<seq<Row>>, order: seq<nat>)
    requires PathOrder(order, |batches|) && |batches| <= 10 && InRange(order, |batches|)
    ensures ListOf(batches, order) == Tables(batches)
       <==> forall i | 0 <= i < |batches| :: !Vanishes(batches[i])
    ensures Listed(batches, order) == batches
  {
    hide ListOf, Tables, TableOf, PathOrder, Vanishes;
    var n := |batches|;
    LoadOrderIsCreationOrder(order, n);
    ListIsLive(batches, order, n);
    assert order[..n] == order && batches[..n] == batches;
  }

  /** The newest row on disk is the newest row of the batches, except that MAX can
      be lost. */
  lemma {:induction false} DiskIsFlat(batches: seq<seq<Row>>, k: u64)
    requires k != MAX || forall i | 0 <= i < |batches| :: !SentinelOnly(batches[i])
    ensures DiskNewest(batches, k) == Newest(Flatten(batches), k)
  {
    hide TableOf;
    if batches != [] {
      var n := |batches| - 1;
      DiskIsFlat(batches[..n], k);
      TableLookup(batches[n], k);
      NewestOfConcat(Flatten(batches[..n]), batches[n], k);
    }
  }

  // ----- The session after reopening, until its first snapshot -----

  function PutRows(s: State, rows: seq<Row>): (r: State)
    ensures r.bits == s.bits && r.tables == s.tables && r.disk == s.disk
  {
    if rows == [] then s else PutRow(PutRows(s, rows[..|rows| - 1]), rows[|rows| - 1])
  }

  lemma {:induction false} PutRowsEntries(s: State, rows: seq<Row>)
    ensures PutRows(s, rows).mem.entries == InsertAll(s.mem.entries, s.mem.counter, rows)
    ensures PutRows(s, rows).mem.counter == s.mem.counter + |rows|
  {
    hide Serialize;
    if rows != [] {
      PutRowsEntries(s, rows[..|rows| - 1]);
    }
  }

  /** Whatever is put and removed after reopening continues the surviving log. */
  lemma ReopenedSessionReads(env: Env, c: Config, d: nat, dir: Directory, more: seq<Row>, k: u64)
    requires env.Valid() && Inv(env, c) && Fits(OnDisk(c)) && Image(c, d, dir) && d > 0
    ensures InRange(dir.order, |OnDisk(c)|)
    ensures OpenEngine(env, dir).Opened?
    ensures Get(env, PutRows(OpenEngine(env, dir).state, more), k)
         == RecoveredAnswer(env, Logged(c)[..d] + more, Listed(OnDisk(c), dir.order), dir.disk.bloom, k)
  {
    hide Inv, Image, OpenEngine, Deliver, OnDisk, Logged, HintsFit, ListOf, Search, ChunkRow, LoadFilter,
         ProbablyContains, Find, InsertAll, PutRows, ZeroForged, DiskNewest;
    ImageOrder(env, c, d, dir);
    ImageParts(c, d, dir);
    var rows := Logged(c)[..d];
    OpenImage(env, c, d, dir);
    RecoveredDisk(env, c, d, dir, k);
    PutRowsEntries(Recovered(env, c, d, dir), more);
    ReplayContinues(rows, more);
    LookupIsNewest(rows + more, k);
  }

  lemma ImageParts(c: Config, d: nat, dir: Directory)
    requires Image(c, d, dir)
    ensures d <= |Logged(c)| && dir.disk.chunks == c.state.disk.chunks
  {
  }

  /** The saved filter, loaded, lets every key of the covered segments through. */
  lemma CoveredPasses(env: Env, bloom: Option<seq<byte>>, batches: seq<seq<Row>>, k: u64)
    requires env.Valid() && Covers(env.shape, bloom, batches)
    ensures DiskNewest(batches, k).Some? ==> Passes(env, bloom, k)
  {
    hide DiskNewest, ProbablyContains;
    DiskNothing(k);
    if DiskNewest(batches, k).Some? {
      DumpLoad(Empty(env.shape), bloom.value);
    }
  }

  lemma DiskNothing(k: u64)
    ensures DiskNewest([], k).None?
  {
  }
}
