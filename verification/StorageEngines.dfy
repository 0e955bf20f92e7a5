/** The storage engine object; every method is proved against EngineSpec. */
module StorageEngines {
  import opened Wrappers
  import opened Bytes
  import opened Streams
  import opened Rows
  import opened MemTableSpec
  import opened SSTables
  import opened SSTableIndexes
  import opened Indexes
  import opened BloomFilters
  import opened WriteAheadLogs
  import opened MemTables
  import opened EngineSpec
  import Spec = EngineSpec

  class StorageEngine {
    const env: Env
    const bloomFilter: BloomFilter
    var memTable: MemTable
    var index: Index
    var segmentId: nat
    var chunks: map<nat, seq<byte>>
    var indexFiles: map<nat, seq<byte>>
    var bloomFile: Option<seq<byte>>

    ghost predicate Valid()
      reads this, memTable, index, index.tables
    {
      && env.Valid()
      && bloomFilter.Valid() && bloomFilter.shape == env.shape
      && memTable.wal != null
      && index.Valid()
    }

    ghost function View(): State
      reads this, memTable, memTable.wal, index, index.tables, bloomFilter.bits
    {
      State(memTable.View(), bloomFilter.bits[..], index.View(), segmentId,
            Disk(chunks, indexFiles, bloomFile))
    }

    /** An engine that has not been opened yet. */
    constructor (env: Env)
      requires env.Valid()
      ensures this.env == env && bloomFilter.Valid() && bloomFilter.shape == env.shape
      ensures bloomFilter.bits[..] == Empty(env.shape) && segmentId == 0
      ensures fresh(bloomFilter) && fresh(bloomFilter.bits)
    {
      this.env := env;
      bloomFilter := new BloomFilter(env.shape);
      memTable := new MemTable();
      index := new Index();
      segmentId, chunks, indexFiles, bloomFile := 0, map[], map[], None;
    }

    method FindInMemory(key: u64) returns (row: Option<Row>)
      requires Valid()
      ensures row == Spec.FindInMemory(View(), key)
    {
      row := memTable.Get(key);
    }

    method FindOnDisk(key: u64) returns (r: GetResult)
      requires Valid()
      ensures r == Spec.FindOnDisk(env, View(), key)
    {
      hide ChunkRow, Deliver, Search, ProbablyContains;
      var probably := bloomFilter.Contains(key);
      if !probably {
        return NotFound;
      }
      var found, hint := index.Get(key);
      if !found {
        return NotFound;
      }
      var d := ReadChunk(hint);
      if d.Undefined? {
        return UndefinedRead;
      }
      if d.row.op == REMOVE {
        return NotFound;
      }
      r := Check(d.row);
    }

    /** Opens the segment file, seeks, reads, decodes. */
    method ReadChunk(hint: SearchHint) returns (d: DecodeResult)
      requires Valid()
      ensures d == ChunkRow(View().disk, hint)
    {
      hide Deserialize, ReadAt;
      var file := if hint.fileId in chunks then chunks[hint.fileId] else [];
      var data := ReadAt(file, hint.offset, hint.size);
      d := DeserializeData(data);
    }

    /** The end of `get`. */
    method Check(row: Row) returns (r: GetResult)
      ensures r == Deliver(env, row)
    {
      if env.hash(row.value) != row.checksum {
        return ChecksumError;
      }
      var value := env.uncompress(row.value);
      return if value.None? then UncompressError else Found(value.value);
    }

    method Get(key: u64) returns (r: GetResult)
      requires Valid()
      ensures r == Spec.Get(env, View(), key)
    {
      var row := FindInMemory(key);
      if row.Some? {
        r := Check(row.value);
      } else {
        r := FindOnDisk(key);
      }
    }

    method Remove(key: u64)
      requires Valid()
      modifies memTable, memTable.wal
      ensures Valid() && View() == Spec.Remove(old(View()), key)
    {
      memTable.Remove(key);
    }

    /** Compression and checksum first; a compressor that throws leaves no trace. */
    method Put(key: u64, value: Data) returns (thrown: bool)
      requires Valid()
      modifies this, memTable, memTable.wal, index, bloomFilter.bits
      ensures Valid()
      ensures thrown <==> Spec.Put(env, old(View()), key, value).Thrown?
      ensures View() == Spec.Put(env, old(View()), key, value).state
    {
      hide Snapshot;
      var compressed := env.compress(value);
      if compressed.None? {
        return true;
      }
      var checksum := env.hash(compressed.value);
      memTable.Put(key, compressed.value, checksum);
      if memTable.memorySize >= env.limit {
        thrown := MakeSnapshot();
      } else {
        thrown := false;
      }
    }

    method AddKeys(rows: seq<Row>)
      requires bloomFilter.Valid()
      modifies bloomFilter.bits
      ensures bloomFilter.bits[..] == AddRows(bloomFilter.shape, old(bloomFilter.bits[..]), rows)
    {
      for i := 0 to |rows|
        invariant AddRows(bloomFilter.shape, bloomFilter.bits[..], rows[i..])
               == AddRows(bloomFilter.shape, old(bloomFilter.bits[..]), rows)
      {
        assert rows[i..][1..] == rows[i + 1..];
        bloomFilter.AddKey(rows[i].key);
      }
    }

    /** Segment file, log flush, bloom file, index file, registration, in this order. */
    method MakeSnapshot() returns (thrown: bool)
      requires Valid()
      modifies this, memTable, memTable.wal, index, bloomFilter.bits
      ensures Valid()
      ensures thrown <==> Snapshot(env, old(View())).Thrown?
      ensures View() == Snapshot(env, old(View())).state
    {
      hide Table, AddRows, WriteChunk, ClearMem, WriteBloom, WriteIndex, RegisterIndex, IndexOf;
      var segment := segmentId;
      var table := WriteSegment();
      WriteBloomFile(table);
      thrown := WriteIndexFile(segment, table);
    }

    method WriteSegment() returns (table: SSTable)
      requires Valid()
      modifies this, memTable, memTable.wal
      ensures Valid() && fresh(table) && table.rows == Table(old(View()))
      ensures index == old(index) && memTable == old(memTable) && memTable.wal == old(memTable.wal)
      ensures View() == ClearMem(WriteChunk(old(View())))
      ensures |View().bits| == |old(View()).bits|
    {
      hide Scan, SerializeAll;
      var segment := segmentId;
      segmentId := segmentId + 1;
      table := memTable.CreateSortedStringsTable();
      var chunk := memTable.Dump();
      chunks := chunks[segment := chunk];
      memTable.Clear();
    }

    method WriteBloomFile(table: SSTable)
      requires Valid()
      modifies this, bloomFilter.bits
      ensures Valid()
      ensures index == old(index) && memTable == old(memTable)
      ensures View() == WriteBloom(old(View()).(bits := AddRows(env.shape, old(View()).bits, table.rows)))
    {
      hide AddRows;
      AddKeys(table.rows);
      var bloom := bloomFilter.Dump();
      bloomFile := Some(bloom);
    }

    /** The index object is moved into the list only after its file was written. */
    method WriteIndexFile(segment: nat, table: SSTable) returns (thrown: bool)
      requires Valid()
      modifies this, index
      ensures Valid()
      ensures var t := IndexOf(Low32(segment), table.rows);
              var e := RegisterIndex(WriteIndex(env, old(View()), segment, t), t);
              View() == e.state && (thrown <==> e.Thrown?)
    {
      hide Register, Encode, Traverses, Indexed;
      var tableIndex := SaveIndex(segment, table);
      thrown := index.Update(tableIndex);
    }

    method SaveIndex(segment: nat, table: SSTable) returns (tableIndex: SSTableIndex)
      requires Valid()
      modifies this`indexFiles
      ensures Valid() && fresh(tableIndex)
      ensures tableIndex.View() == IndexOf(Low32(segment), table.rows)
      ensures View() == WriteIndex(env, old(View()), segment, tableIndex.View())
    {
      hide Register, Encode;
      tableIndex := new SSTableIndex.FromTable(Low32(segment), table);
      var data := tableIndex.Dump(env.traverse(TableIndex(tableIndex.fileId, tableIndex.hints)));
      indexFiles := indexFiles[segment := data];
    }

    /** Replays the log and truncates it, loads the indexes in directory order,
        loads the filter. Segment number and filter are not reset. */
    method Open(d: Directory) returns (done: bool, thrown: bool)
      requires env.Valid() && bloomFilter.Valid() && bloomFilter.shape == env.shape
      requires forall i | i in d.order :: i in d.disk.indexes
      modifies this, bloomFilter.bits
      ensures done <==> OpenOn(env, old(bloomFilter.bits[..]), old(segmentId), d).Opened?
      ensures thrown <==> OpenOn(env, old(bloomFilter.bits[..]), old(segmentId), d).OpenThrows?
      ensures done ==>
        Valid() && View() == OpenOn(env, old(bloomFilter.bits[..]), old(segmentId), d).state
    {
      hide LoadRows, LoadAll, InsertAll, LoadFilter;
      chunks, indexFiles, bloomFile := d.disk.chunks, d.disk.indexes, d.disk.bloom;
      thrown := false;
      done := ReplayLog(d.wal);
      if !done {
        return;
      }
      done, thrown := LoadIndexes(IndexFiles(d.disk.indexes, d.order));
      if !done {
        return;
      }
      ReadBloomFile(d.disk.bloom);
    }

    method ReadBloomFile(bloom: Option<seq<byte>>)
      requires bloomFilter.Valid()
      modifies bloomFilter.bits
      ensures bloomFilter.bits[..] == LoadFilter(old(bloomFilter.bits[..]), bloom)
    {
      if bloom.Some? {
        bloomFilter.Load(bloom.value);
      }
    }

    method LoadIndexes(files: seq<seq<byte>>) returns (done: bool, thrown: bool)
      modifies this`index
      ensures fresh(index) && index.Valid() && forall t | t in index.tables :: fresh(t)
      ensures done <==> LoadAll([], files).LoadedTables?
      ensures thrown <==> LoadAll([], files).DuplicateId?
      ensures done ==> index.View() == LoadAll([], files).tables
    {
      hide LoadAll;
      index := new Index();
      done, thrown := index.Load(files);
    }

    method ReplayLog(log: Option<seq<byte>>) returns (done: bool)
      modifies this`memTable
      ensures fresh(memTable)
      ensures done <==> (log.Some? ==> LoadRows(Streams.Open(log.value)).Loaded?)
      ensures done ==> memTable.wal != null && fresh(memTable.wal)
      ensures done ==>
                var rows := if log.Some? then LoadRows(Streams.Open(log.value)).rows else [];
                memTable.View() == NEW_MEMTABLE.Restore(rows).(log := Some(EMPTY_LOG))
    {
      hide LoadRows, InsertAll;
      memTable := new MemTable();
      if log.Some? {
        var stream := new InStream(log.value);
        done := memTable.RestoreFromLog(stream);
        if !done {
          return;
        }
      } else {
        NothingReplayed();
      }
      memTable.SetWriteAheadLog();
      done := true;
    }
  }

  lemma NothingReplayed()
    ensures NEW_MEMTABLE.Restore([]) == NEW_MEMTABLE
  {
  }
}
