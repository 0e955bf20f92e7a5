/** The engine's operations in any state whatever, told field by field: also after a
    second open, with files missing, or in the middle of an exception. */
module EngineFacts {
  import opened Wrappers
  import opened Bytes
  import opened Streams
  import opened Rows
  import opened Records
  import opened MemTableKeys
  import opened MemTableSpec
  import opened SSTableIndexes
  import opened Indexes
  import opened BloomFilters
  import opened WriteAheadLogs
  import opened MemTables
  import opened EngineSpec

  // ----- Reading a segment -----

  /** `seekg` and `read` into zeros: a byte past the end of the file is a zero. */
  lemma ReadAtBytes(file: seq<byte>, offset: nat, size: nat)
    ensures ReadAt(file, offset, size) == BytesAt(file, offset, size)
  {
    var r, b := ReadAt(file, offset, size), BytesAt(file, offset, size);
    forall i | 0 <= i < size ensures r[i] == b[i] {
    }
  }

  /** What a hint leads to in a file of arbitrary bytes. */
  lemma ChunkRowExactly(d: Disk, h: SearchHint)
    ensures var file := if h.fileId in d.chunks then d.chunks[h.fileId] else [];
            var data := BytesAt(file, h.offset, h.size);
            && (ChunkRow(d, h).Undefined? <==>
                  h.size == 0 || Overruns(data, 2, ByteAt(data, 1), 8)
                  || Overruns(data, SumAt(data, 0) + 1, ByteAt(data, SumAt(data, 0)), 16))
            && (ChunkRow(d, h).Decoded? ==> ChunkRow(d, h).row == RowAt(data, 0))
  {
    hide Deserialize, RowAt, ReadAt, Overruns, SumAt;
    var file := if h.fileId in d.chunks then d.chunks[h.fileId] else [];
    ReadAtBytes(file, h.offset, h.size);
    var c := Open(BytesAt(file, h.offset, h.size));
    if h.size > 0 {
      DecodeExactly(c);
    } else {
      EmptyDecodes(c);
    }
  }

  lemma EmptyDecodes(c: Cursor)
    requires c.Valid() && c.pos == |c.data|
    ensures Deserialize(c).Undefined?
  {
  }

  lemma ZeroWord(b: seq<byte>)
    requires |b| == 8 && forall i | 0 <= i < 8 :: b[i] == 0
    ensures Word(b) == 0
  {
    assert b == Zeros(8);
    ZeroWords();
  }

  /** A missing segment file reads as zeros: an empty value of key 0, sealed with 0. */
  lemma MissingFileReads(env: Env, d: Disk, h: SearchHint)
    requires h.fileId !in d.chunks
    ensures DeliverChunk(env, ChunkRow(d, h))
         == if h.size == 0 then UndefinedRead else Deliver(env, Row(0, [], 0, UInt128(0, 0)))
  {
    hide ChunkRow, Deliver, Word;
    var data := BytesAt([], h.offset, h.size);
    ChunkRowExactly(d, h);
    assert forall i | 0 <= i < |data| :: data[i] == 0;
    assert forall p: nat :: ByteAt(data, p) == 0;
    ZeroRow(data);
  }

  lemma ZeroRow(data: seq<byte>)
    requires forall i | 0 <= i < |data| :: data[i] == 0
    ensures RowAt(data, 0) == Row(0, [], 0, UInt128(0, 0))
    ensures ByteAt(data, 1) == 0 && ByteAt(data, SumAt(data, 0)) == 0
  {
    hide Word;
    assert forall p: nat :: ByteAt(data, p) == 0;
    var sum := SizedAt(data, SumAt(data, 0) + 1, ByteAt(data, SumAt(data, 0)), 16);
    ZeroWord(SizedAt(data, 2, ByteAt(data, 1), 8));
    ZeroWord(BytesAt(data, LengthAt(data, 0), 8));
    ZeroWord(sum[..8]);
    ZeroWord(sum[8..]);
    assert BytesAt(data, LengthAt(data, 0) + 8, 0) == [];
  }

  // ----- get -----

  /** The first table of the list that holds the key. */
  ghost predicate FirstHolder(tables: seq<TableIndex>, k: u64, i: nat) {
    i < |tables| && k in tables[i].hints && forall j | 0 <= j < i :: k !in tables[j].hints
  }

  lemma {:induction false} SearchIsFirstHolder(tables: seq<TableIndex>, k: u64, i: nat)
    requires FirstHolder(tables, k, i)
    ensures Search(tables, k)
         == Some(SearchHint(tables[i].fileId, tables[i].hints[k].offset, tables[i].hints[k].size))
  {
    if i > 0 {
      assert forall j | 0 <= j < i - 1 :: tables[1..][j] == tables[j + 1];
      SearchIsFirstHolder(tables[1..], k, i - 1);
    }
  }

  /** The memtable's first entry of the key answers if it is live. */
  lemma GetInMemory(env: Env, s: State, k: u64)
    requires env.Valid() && |s.bits| == env.shape.cells && Sorted(s.mem.entries)
    requires FirstEntry(s.mem.entries, k).Some? && FirstEntry(s.mem.entries, k).value.op != 1
    ensures Get(env, s, k) == Deliver(env, FirstEntry(s.mem.entries, k).value)
  {
    hide Find, FirstEntry, Deliver, ChunkRow, Search;
    FindIsFirst(s.mem.entries, k);
  }

  /** Otherwise the filter's cells are asked, then the list, then the segment. */
  lemma GetOnDisk(env: Env, s: State, k: u64)
    requires env.Valid() && |s.bits| == env.shape.cells && Sorted(s.mem.entries)
    requires FirstEntry(s.mem.entries, k).Some? ==> FirstEntry(s.mem.entries, k).value.op == 1
    ensures forall p | p in Positions(env.shape.hash(k), env.shape.probes, env.shape.cells) :: p < |s.bits|
    ensures (exists p | p in Positions(env.shape.hash(k), env.shape.probes, env.shape.cells) :: s.bits[p] == 0)
            ==> Get(env, s, k) == NotFound
    ensures (forall i | 0 <= i < |s.tables| :: k !in s.tables[i].hints) ==> Get(env, s, k) == NotFound
    ensures forall i: nat |
              && (forall p | p in Positions(env.shape.hash(k), env.shape.probes, env.shape.cells) :: s.bits[p] != 0)
              && FirstHolder(s.tables, k, i) ::
              Get(env, s, k) == DeliverChunk(env, ChunkRow(s.disk,
                SearchHint(s.tables[i].fileId, s.tables[i].hints[k].offset, s.tables[i].hints[k].size)))
  {
    hide Find, FirstEntry, Deliver, ChunkRow, Search, ProbablyContains;
    FindIsFirst(s.mem.entries, k);
    ContainsAt(env.shape, s.bits, k);
    if forall i | 0 <= i < |s.tables| :: k !in s.tables[i].hints {
      assert forall t | t in s.tables :: k !in t.hints;
    }
    forall i: nat | FirstHolder(s.tables, k, i)
      ensures Search(s.tables, k) == Some(SearchHint(s.tables[i].fileId, s.tables[i].hints[k].offset,
                                                     s.tables[i].hints[k].size))
    {
      SearchIsFirstHolder(s.tables, k, i);
    }
  }

  // ----- Snapshots -----

  /** Everything that a log was handed has reached its file. */
  function AllFlushed(log: Option<Log>): Option<Log> {
    match log
    case None => None
    case Some(l) => Some(Log(l.written, |l.written|))
  }

  /** The cells after a snapshot of the table: its keys' positions are set. */
  ghost predicate KeysAdded(s: Shape, before: seq<byte>, after: seq<byte>, table: seq<Row>)
    requires s.Valid()
  {
    |after| == |before| == s.cells && forall cell | 0 <= cell < s.cells ::
      after[cell] == if exists n | 0 <= n < |table| ::
                          cell in Positions(s.hash(table[n].key), s.probes, s.cells)
                     then 1 else before[cell]
  }

  /** The state a snapshot leaves, field by field; `thrown` makes a difference only to
      the list. */
  ghost predicate Snapshotted(env: Env, s: State, after: State, thrown: bool)
    requires env.Valid()
  {
    var table := Table(s);
    && after.mem == MemState([], 0, 0, AllFlushed(s.mem.log))
    && KeysAdded(env.shape, s.bits, after.bits, table)
    && after.disk.bloom == Some(after.bits)
    && after.disk.chunks == s.disk.chunks[s.segment := SerializeAll(table)]
    && after.disk.indexes.Keys == s.disk.indexes.Keys + {s.segment}
    && (forall i | i in s.disk.indexes && i != s.segment :: after.disk.indexes[i] == s.disk.indexes[i])
    && LoadIndex(after.disk.indexes[s.segment])
       == IndexLoaded(TableIndex(Low32(s.segment),
            if table == [] then map[0 := Hint(0, 0)] else IndexOf(Low32(s.segment), table).hints))
    && after.segment == s.segment + 1
    && after.tables == if thrown then s.tables else [IndexOf(Low32(s.segment), table)] + s.tables
  }

  lemma HeadIn<T>(s: seq<T>)
    ensures s != [] ==> s[0] in s
  {
  }

  lemma WrittenIndexLoads(env: Env, id: u32, table: seq<Row>)
    requires env.Valid()
    ensures var t := IndexOf(id, table);
            LoadIndex(Encode(t, env.traverse(t)))
            == IndexLoaded(TableIndex(id, if table == [] then map[0 := Hint(0, 0)] else t.hints))
  {
    hide LoadIndex, Encode;
    var t := IndexOf(id, table);
    var order := env.traverse(t);
    assert Traverses(order, t.hints);
    if table == [] {
      assert t == TableIndex(id, map[]);
      HeadIn(order);
      EmptyIndexGainsKeyZero(id);
    } else {
      RegisterKeys(map[], table, 0, table[0].key);
      assert First(table, table[0].key).Some?;
      assert table[0].key in order;
      IndexRoundTrip(t, order);
    }
  }

  lemma RowsAdded(s: Shape, bits: seq<byte>, table: seq<Row>)
    requires s.Valid() && |bits| == s.cells
    ensures KeysAdded(s, bits, AddRows(s, bits, table), table)
  {
    hide AddRows;
    forall cell | 0 <= cell < s.cells
      ensures AddRows(s, bits, table)[cell]
           == if exists n | 0 <= n < |table| ::
                   cell in Positions(s.hash(table[n].key), s.probes, s.cells)
              then 1 else bits[cell]
    {
      AddRowsExact(s, bits, table, cell);
    }
  }

  /** A snapshot in any state throws exactly when its file id is in the list, and it has
      done all its work by then: only the registration is missing. */
  lemma SnapshotAnywhere(env: Env, s: State)
    requires env.Valid() && |s.bits| == env.shape.cells
    ensures Snapshot(env, s).Thrown? <==>
              exists i | 0 <= i < |s.tables| :: s.tables[i].fileId == Low32(s.segment)
    ensures Snapshotted(env, s, Snapshot(env, s).state, Snapshot(env, s).Thrown?)
  {
    hide AddRows, Encode, LoadIndex, SerializeAll, Table, Register, KeysAdded;
    RowsAdded(env.shape, s.bits, Table(s));
    WrittenIndexLoads(env, Low32(s.segment), Table(s));
  }

  /** After a snapshot that throws, nothing is in the memtable, and the old list is read
      through the new segment file where the two meet. */
  lemma ReadAfterThrow(env: Env, s: State, k: u64)
    requires env.Valid() && |s.bits| == env.shape.cells && Snapshot(env, s).Thrown?
    ensures var after := Snapshot(env, s).state;
            && |after.bits| == env.shape.cells
            && (ProbablyContains(env.shape, s.bits, k) || First(Table(s), k).Some? ==>
                  ProbablyContains(env.shape, after.bits, k))
            && Get(env, after, k)
               == (if !ProbablyContains(env.shape, after.bits, k) then NotFound
                   else match Search(s.tables, k)
                     case None => NotFound
                     case Some(h) =>
                       DeliverChunk(env, if h.fileId == s.segment
                                         then Deserialize(Open(ReadAt(SerializeAll(Table(s)), h.offset, h.size)))
                                         else ChunkRow(s.disk, h)))
  {
    hide AddRows, Encode, SerializeAll, Table, Register, ProbablyContains, Search, Deserialize, ReadAt, Deliver,
         Snapshotted;
    if ProbablyContains(env.shape, s.bits, k) || First(Table(s), k).Some? {
      if First(Table(s), k).Some? {
        FirstIsThere(Table(s), k);
      }
      AddRowsContains(env.shape, s.bits, Table(s), k);
    }
  }

  lemma FirstIsThere(rows: seq<Row>, k: u64)
    requires First(rows, k).Some?
    ensures exists n | 0 <= n < |rows| :: rows[n].key == k
  {
    assert First(rows, k).value in rows;
  }

  // ----- put and remove -----

  /** A put in any state: a compressor that throws changes nothing; the row is counted
      with 35 bytes more than its value; exactly when that reaches the limit there is a
      snapshot. */
  lemma PutAnywhere(env: Env, s: State, k: u64, v: Data)
    requires env.Valid() && |s.bits| == env.shape.cells && Numbered(s.mem.entries, s.mem.counter)
    ensures env.compress(v).None? ==> Put(env, s, k, v) == Thrown(s)
    ensures env.compress(v).Some? ==>
              var c := env.compress(v).value;
              var row := Row(k, c, 0, env.hash(c));
              if s.mem.size + 35 + |c| < env.limit then
                Put(env, s, k, v).Done? && Appended(s, Put(env, s, k, v).state, row)
              else
                exists full :: Appended(s, full, row) && Put(env, s, k, v) == Snapshot(env, full)
  {
    hide Snapshot, Serialize;
    if env.compress(v).Some? {
      var row := ValueRow(env, k, env.compress(v).value);
      AppendAnywhere(s, row);
      if s.mem.size + 35 + |row.value| >= env.limit {
        assert Put(env, s, k, v) == Snapshot(env, PutRow(s, row));
      }
    }
  }

  /** One entry more in the map, under the next counter; the rest as it was. */
  ghost predicate Appended(s: State, after: State, row: Row) {
    && (forall x :: x in after.mem.entries <==>
          x in s.mem.entries || x == Entry(InsertKey(s.mem.counter, row.key), row))
    && |after.mem.entries| == |s.mem.entries| + 1
    && after.mem.counter == s.mem.counter + 1 && after.mem.size == s.mem.size + 35 + |row.value|
    && (s.mem.log.None? ==> after.mem.log.None?)
    && (s.mem.log.Some? ==>
          after.mem.log == Some(Log(s.mem.log.value.written + Serialize(row), s.mem.log.value.flushed)))
    && after.bits == s.bits && after.tables == s.tables && after.segment == s.segment && after.disk == s.disk
  }

  lemma AppendAnywhere(s: State, row: Row)
    requires Numbered(s.mem.entries, s.mem.counter)
    ensures Appended(s, PutRow(s, row), row)
  {
    hide Serialize;
    InsertContents(s.mem.entries, Entry(InsertKey(s.mem.counter, row.key), row), s.mem.counter);
  }

  /** A remove in any state: one tombstone more, and never a snapshot. */
  lemma RemoveAnywhere(s: State, k: u64)
    requires Numbered(s.mem.entries, s.mem.counter)
    ensures Appended(s, Remove(s, k), Row(k, [], 1, UInt128(0, 0)))
  {
    AppendAnywhere(s, RemoveRow(k));
  }

  // ----- open -----

  /** The log's rows, as the loader reads them; no file is no rows. */
  function Replayed(wal: Option<seq<byte>>): LoadResult {
    match wal
    case None => Loaded([])
    case Some(data) => LoadRows(Streams.Open(data))
  }

  /** Opening an arbitrary directory: which of the three ends it takes, and what there is
      after the good one. */
  lemma OpenAnywhere(env: Env, bits: seq<byte>, segment: nat, d: Directory)
    requires forall i | i in d.order :: i in d.disk.indexes
    ensures var files := IndexFiles(d.disk.indexes, d.order);
            var r := OpenOn(env, bits, segment, d);
            && (r.Opened? <==>
                  Replayed(d.wal).Loaded? && forall i: nat | i < |files| :: LoadsFresh([], files, i))
            && (r.OpenThrows? <==> Replayed(d.wal).Loaded? && exists i: nat :: ThrowsAt([], files, i))
            && (r.Opened? ==>
                  var s, rows := r.state, Replayed(d.wal).rows;
                  && LoadedInFront(s.tables, [], files)
                  && (forall k :: Find(s.mem.entries, k) == Newest(rows, k))
                  && s.mem.counter == |s.mem.entries| == |rows| && s.mem.size == 0
                  && s.mem.log == Some(Log([], 0))
                  && |s.bits| == |bits|
                  && (forall cell | 0 <= cell < |bits| ::
                        s.bits[cell] == if d.disk.bloom.Some? && cell < |d.disk.bloom.value|
                                        then d.disk.bloom.value[cell] else bits[cell])
                  && s.segment == segment && s.disk == d.disk)
  {
    hide LoadRows, LoadAll, LoadBits, LoadsFresh, ThrowsAt, LoadedInFront, Find, Newest, InsertAll;
    var files := IndexFiles(d.disk.indexes, d.order);
    LoadAllExactly([], files);
    if OpenOn(env, bits, segment, d).Opened? {
      var rows := Replayed(d.wal).rows;
      MemOfInvariant(rows);
      assert OpenOn(env, bits, segment, d).state.mem.entries == MemOf(rows);
      forall k ensures Find(MemOf(rows), k) == Newest(rows, k) {
        LookupIsNewest(rows, k);
      }
      if d.disk.bloom.Some? {
        forall cell | 0 <= cell < |bits|
          ensures LoadBits(bits, d.disk.bloom.value)[cell]
               == if cell < |d.disk.bloom.value| then d.disk.bloom.value[cell] else bits[cell]
        {
          LoadBitsAt(bits, d.disk.bloom.value, cell);
        }
      }
    }
  }

  // ----- Configurations -----

  ghost function Enumerated(keys: set<u64>): (order: seq<u64>)
    ensures forall k :: k in order <==> k in keys
    ensures forall i, j | 0 <= i < j < |order| :: order[i] != order[j]
  {
    if keys == {} then []
    else
      var k :| k in keys;
      [k] + Enumerated(keys - {k})
  }

  /** Any compressor, hash and limit, and any filter with a cell, make a configuration. */
  lemma AnyConfiguration(compress: Data -> Option<Data>, uncompress: Data -> Option<Data>,
                         hash: Data -> UInt128, shape: Shape, limit: nat) returns (env: Env)
    requires shape.cells > 0
    ensures env.Valid() && env.compress == compress && env.uncompress == uncompress
    ensures env.hash == hash && env.shape == shape && env.limit == limit
  {
    env := Env(compress, uncompress, hash, shape, limit, (t: TableIndex) => Enumerated(t.hints.Keys));
  }
}
