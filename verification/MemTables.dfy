/** The memtable object. */
module MemTables {
  import opened Wrappers
  import opened Bytes
  import opened Streams
  import opened Rows
  import opened MemTableKeys
  import opened MemTableSpec
  import opened SSTables
  import opened SSTableIndexes
  import opened WriteAheadLogs

  /** Its value: the ordered map, the insertion counter, the tracked size, the log. */
  datatype MemState = MemState(entries: seq<Entry>, counter: nat, size: nat, log: Option<Log>) {

    function Put(row: Row): MemState {
      MemState(Insert(entries, Entry(InsertKey(counter, row.key), row)), counter + 1,
               size + RowSize(row), if log.Some? then Some(log.value.Append(row)) else None)
    }

    /** Replay numbers the rows like a put, but neither counts nor logs them. */
    function Restore(rows: seq<Row>): MemState {
      MemState(InsertAll(entries, counter, rows), counter + |rows|, size, log)
    }

    function Clear(): MemState {
      MemState([], 0, 0, if log.Some? then Some(log.value.Flush()) else None)
    }
  }

  const NEW_MEMTABLE := MemState([], 0, 0, None)

  const ZERO := UInt128(0, 0)

  function RemoveRow(key: u64): Row {
    Row(key, [], REMOVE, ZERO)
  }

  lemma ZeroBytes()
    ensures ToLE(0, 8) == [0, 0, 0, 0, 0, 0, 0, 0]
  {
    var b := ToLE(0, 8);
    forall i | 0 <= i < 8 ensures b[i] == 0 {
      DigitAt(0, 8, i);
    }
  }

  /** The whole record of a tombstone: byte 1, the key, an empty value, no checksum. */
  lemma RemoveRecord(key: u64)
    ensures Serialize(RemoveRow(key)) == [1, 8] + ToLE(key, 8)
      + [0, 0, 0, 0, 0, 0, 0, 0, 16, 0, 0, 0, 0, 0, 0, 0, 0, 0, 0, 0, 0, 0, 0, 0, 0]
  {
    hide ToLE;
    ZeroBytes();
  }

  class MemTable {
    var entries: seq<Entry>
    var counter: nat
    var memorySize: nat
    var wal: WriteAheadLog?

    ghost function View(): MemState
      reads this, wal
    {
      MemState(entries, counter, memorySize, if wal == null then None else Some(wal.View()))
    }

    constructor ()
      ensures View() == NEW_MEMTABLE && wal == null
    {
      entries, counter, memorySize, wal := [], 0, 0, null;
    }

    method PutRow(row: Row)
      modifies this`entries, this`counter, this`memorySize, wal
      ensures View() == old(View()).Put(row)
    {
      hide Serialize;
      var insertKey := InsertKey(counter, row.key);
      counter := counter + 1;
      var rowSize := GetRowSize(row);
      memorySize := memorySize + rowSize;
      if wal != null {
        wal.LogRow(row);
      }
      entries := Insert(entries, Entry(insertKey, row));
    }

    method Put(key: u64, value: Data, checksum: UInt128)
      modifies this`entries, this`counter, this`memorySize, wal
      ensures View() == old(View()).Put(Row(key, value, PUT, checksum))
      ensures wal != null ==> wal.written[..|old(wal.written)| + 1] == old(wal.written) + [0]
    {
      RecordBytes(Row(key, value, PUT, checksum));
      PutRow(Row(key, value, PUT, checksum));
    }

    method Remove(key: u64)
      modifies this`entries, this`counter, this`memorySize, wal
      ensures View() == old(View()).Put(RemoveRow(key))
      ensures wal != null ==>
        wal.written == old(wal.written) + ([1, 8] + ToLE(key, 8)
          + [0, 0, 0, 0, 0, 0, 0, 0, 16, 0, 0, 0, 0, 0, 0, 0, 0, 0, 0, 0, 0, 0, 0, 0, 0])
    {
      RemoveRecord(key);
      PutRow(Row(key, [], REMOVE, ZERO));
    }

    /** Absent keys and tombstones alike come back as not found. */
    method Get(key: u64) returns (row: Option<Row>)
      ensures row == match Find(entries, key)
                     case None => None
                     case Some(r) => if r.op == 1 then None else Some(r)
    {
      row := Find(entries, key);
      if row.None? || row.value.op == REMOVE {
        return None;
      }
    }

    /** Writes the newest row of every key. */
    method Dump() returns (os: seq<byte>)
      ensures os == SerializeAll(Scan(entries, MAX))
    {
      hide Serialize;
      os := [];
      var prevKeyId := MAX;
      for i := 0 to |entries|
        invariant os + SerializeAll(Scan(entries[i..], prevKeyId)) == SerializeAll(Scan(entries, MAX))
      {
        assert entries[i..][1..] == entries[i + 1..];
        var keyId := entries[i].ik.key;
        if prevKeyId == keyId {
          continue;
        }
        prevKeyId := keyId;
        var data := SerializeRow(entries[i].row);
        var rest := Scan(entries[i + 1..], keyId);
        assert ([entries[i].row] + rest)[1..] == rest;
        Associative(os, data, SerializeAll(rest));
        os := os + data;
      }
      assert os + [] == os;
    }

    method CreateSortedStringsTable() returns (table: SSTable)
      ensures fresh(table) && table.rows == Scan(entries, MAX)
    {
      table := new SSTable();
      var prevKeyId := MAX;
      for i := 0 to |entries|
        invariant table.rows + Scan(entries[i..], prevKeyId) == Scan(entries, MAX)
      {
        assert entries[i..][1..] == entries[i + 1..];
        var keyId := entries[i].ik.key;
        if prevKeyId == keyId {
          continue;
        }
        prevKeyId := keyId;
        ghost var rest := Scan(entries[i + 1..], keyId);
        assert table.rows + ([entries[i].row] + rest) == table.rows + [entries[i].row] + rest;
        table.Append(entries[i].row);
      }
      assert table.rows + [] == table.rows;
    }

    /** The index straight from the map, with 64-bit offsets narrowed one by one:
        the same as the index of the table, overflow included. */
    method CreateSortedStringsTableIndex(fileId: u32) returns (index: SSTableIndex)
      requires forall e | e in entries :: e.ik.key == e.row.key
      ensures fresh(index) && index.View() == IndexOf(fileId, Scan(entries, MAX))
    {
      hide Serialize, RowSize;
      index := new SSTableIndex(fileId);
      var offset: nat, prevKeyId := 0, MAX;
      for i := 0 to |entries|
        invariant fresh(index) && index.fileId == fileId
        invariant Register(index.hints, Scan(entries[i..], prevKeyId), Low32(offset))
               == Register(map[], Scan(entries, MAX), 0)
      {
        assert entries[i..][1..] == entries[i + 1..];
        assert entries[i] in entries;
        var keyId := entries[i].ik.key;
        if prevKeyId == keyId {
          continue;
        }
        prevKeyId := keyId;
        var size := GetRowSize(entries[i].row);
        ghost var rest := Scan(entries[i + 1..], keyId);
        assert ([entries[i].row] + rest)[1..] == rest;
        index.Insert(keyId, Hint(Low32(offset), Low32(size)));
        WrapAdd(offset, size);
        offset := offset + size;
      }
    }

    method SetWriteAheadLog()
      modifies this`wal
      ensures wal != null && fresh(wal) && View() == old(View()).(log := Some(EMPTY_LOG))
    {
      wal := new WriteAheadLog();
    }

    /** Replay of a log file: decode, insert under the next counter, peek. */
    method RestoreFromLog(stream: InStream) returns (defined: bool)
      requires stream.View().Valid() && stream.View().Good()
      modifies this`entries, this`counter, stream
      ensures defined <==> LoadRows(old(stream.View())).Loaded?
      ensures defined ==> View() == old(View()).Restore(LoadRows(old(stream.View())).rows)
    {
      hide Deserialize;
      ghost var all, before := LoadRows(stream.View()), View();
      ghost var read: seq<Row> := [];
      while !stream.eof
        invariant stream.View().Valid() && wal == old(wal)
        invariant View() == before.Restore(read)
        invariant if stream.eof then all == Loaded(read) else all == Prefixed(read, LoadRows(stream.View()))
        decreases !stream.eof, |stream.data| - stream.pos
      {
        ghost var at := stream.View();
        var d := DeserializeFrom(stream);
        if d.Undefined? {
          return false;
        }
        var key := InsertKey(counter, d.row.key);
        counter := counter + 1;
        entries := Insert(entries, Entry(key, d.row));
        stream.Peek();
        assert (read + [d.row])[..|read|] == read;
        if !stream.eof {
          PrefixedTwice(read, [d.row], LoadRows(stream.View()));
        }
        read := read + [d.row];
      }
      defined := true;
    }

    method Clear()
      requires wal != null
      modifies this`entries, this`counter, this`memorySize, wal
      ensures View() == old(View()).Clear()
    {
      counter := 0;
      memorySize := 0;
      entries := [];
      wal.FlushAndClear();
    }
  }
}
