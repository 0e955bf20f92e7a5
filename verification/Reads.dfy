/** What a read of a first-session state means in terms of its history. */
module Reads {
  import opened Wrappers
  import opened Bytes
  import opened Streams
  import opened Rows
  import opened Records
  import opened MemTableSpec
  import opened SSTableIndexes
  import opened Indexes
  import opened BloomFilters
  import opened EngineSpec
  import opened Histories

  /** The newest row the segments of the given batches hold for a key. */
  function DiskNewest(batches: seq<seq<Row>>, k: u64): Option<Row> {
    if batches == [] then None
    else
      var n := |batches| - 1;
      OrElse(First(TableOf(batches[n]), k), DiskNewest(batches[..n], k))
  }

  /** Where the row that answers for a key stands in its table. */
  function Place(rows: seq<Row>, k: u64): (i: nat)
    requires First(rows, k).Some?
    ensures i < |rows| && rows[i] == First(rows, k).value
  {
    if rows[0].key == k then 0 else 1 + Place(rows[1..], k)
  }

  /** The row that answers for the key lies below 2^32 in its segment. */
  predicate KeyFits(batches: seq<seq<Row>>, k: u64) {
    if batches == [] then true
    else
      var n := |batches| - 1;
      if First(TableOf(batches[n]), k).Some? then RowFits(TableOf(batches[n]), Place(TableOf(batches[n]), k))
      else KeyFits(batches[..n], k)
  }

  /** Segment numbers, offsets and sizes all fit their 32-bit fields. */
  ghost predicate Fits(batches: seq<seq<Row>>) {
    |batches| <= TWO32 && forall i | 0 <= i < |batches| :: HintsFit(TableOf(batches[i]))
  }

  lemma PlaceFits(table: seq<Row>, k: u64)
    requires HintsFit(table) && First(table, k).Some?
    ensures RowFits(table, Place(table, k))
  {
  }

  lemma {:induction false} FitsKey(batches: seq<seq<Row>>, k: u64)
    requires Fits(batches)
    ensures |batches| <= TWO32 && KeyFits(batches, k)
  {
    hide TableOf, RowFits;
    if batches != [] {
      FitsKey(batches[..|batches| - 1], k);
    }
  }

  lemma FitsSize(batches: seq<seq<Row>>)
    requires Fits(batches)
    ensures |batches| <= TWO32
  {
  }

  function LiveOnly(r: Option<Row>): Option<Row> {
    if r.Some? && r.value.Live() then r else None
  }

  /** The row a read delivers: the memtable's newest row if it is live, and
      otherwise the newest row on disk if that is live. A tombstone in the
      memtable does not stop the search. */
  function Seen(h: History, k: u64): Option<Row> {
    OrElse(LiveOnly(Newest(h.tail, k)), LiveOnly(DiskNewest(h.batches, k)))
  }

  function DeliverSeen(env: Env, r: Option<Row>): GetResult {
    if r.Some? then Deliver(env, r.value) else NotFound
  }

  // ----- One segment file and its index -----

  /** The hint of a row that fits cuts exactly that row out of the segment file,
      though index and file are computed by different functions. */
  lemma ChunkIndexAgree(fileId: u32, table: seq<Row>, i: nat)
    requires StrictlyKeyed(table) && i < |table| && RowFits(table, i)
    ensures table[i].key in IndexOf(fileId, table).hints
    ensures var h := IndexOf(fileId, table).hints[table[i].key];
            h.offset + h.size <= |SerializeAll(table)|
            && SerializeAll(table)[h.offset..h.offset + h.size] == Serialize(table[i])
  {
    hide Serialize, Register;
    HintIsExact(fileId, table, i);
    SerializedSlice(table, i);
  }

  /** The slices follow each other without gap or overlap and fill the file. */
  lemma SlicesTile(fileId: u32, table: seq<Row>, i: nat)
    requires StrictlyKeyed(table) && HintsFit(table) && i < |table|
    requires table[i].key in IndexOf(fileId, table).hints
    ensures i == 0 ==> IndexOf(fileId, table).hints[table[i].key].offset == 0
    ensures var h := IndexOf(fileId, table).hints;
            var end := h[table[i].key].offset + h[table[i].key].size;
            if i + 1 < |table| then table[i + 1].key in h && h[table[i + 1].key].offset == end
            else end == |SerializeAll(table)|
  {
    hide Serialize, Register;
    HintIsExact(fileId, table, i);
    assert table[..i + 1] == table[..i] + [table[i]];
    TotalSizeConcat(table[..i], [table[i]]);
    assert TotalSize([table[i]]) == RowSize(table[i]);
    if i + 1 < |table| {
      HintIsExact(fileId, table, i + 1);
    } else {
      assert table[..i + 1] == table;
    }
  }

  /** Reading a chunk at a row's place decodes that row. */
  lemma ReadBack(file: seq<byte>, row: Row, offset: nat, size: nat)
    requires offset + size <= |file| && file[offset..offset + size] == Serialize(row)
    ensures Deserialize(Open(ReadAt(file, offset, size))).Decoded?
    ensures Deserialize(Open(ReadAt(file, offset, size))).row == row
  {
    hide Serialize, Deserialize;
    var c := Open(ReadAt(file, offset, size));
    assert c.data[..|Serialize(row)|] == Serialize(row);
    RowRoundTrip(c, row);
  }

  /** What is decoded at the place of a key's row, offset and size having been cut
      to 32 bits. */
  function ReadWrapped(table: seq<Row>, k: u64): DecodeResult
    requires First(table, k).Some?
  {
    var i := Place(table, k);
    Deserialize(Open(ReadAt(SerializeAll(table), Low32(TotalSize(table[..i])), Low32(RowSize(table[i])))))
  }

  /** One segment answers what stands at its row's place, fitting or not, or has no
      hint at all. */
  lemma SegmentRead(id: nat, batch: seq<Row>, k: u64, d: Disk)
    requires id < TWO32 && id in d.chunks && d.chunks[id] == SerializeAll(TableOf(batch))
    ensures SegmentIndex(id, batch).fileId == id
    ensures k in SegmentIndex(id, batch).hints <==> First(TableOf(batch), k).Some?
    ensures k in SegmentIndex(id, batch).hints ==>
              var h := SegmentIndex(id, batch).hints[k];
              ChunkRow(d, SearchHint(id, h.offset, h.size)) == ReadWrapped(TableOf(batch), k)
  {
    hide Serialize, Deserialize, Register, SerializeAll, TableOf, ReadAt, TotalSize, RowSize, First, Newest,
         StrictlyKeyed, SentinelOnly, Place;
    var table := TableOf(batch);
    TableLookup(batch, k);
    RegisterKeys(map[], table, 0, k);
    if First(table, k).Some? {
      RegisteredHint(map[], table, 0, Place(table, k));
    }
  }

  lemma FittingRead(table: seq<Row>, k: u64)
    requires First(table, k).Some? && RowFits(table, Place(table, k))
    ensures ReadWrapped(table, k).Decoded? && ReadWrapped(table, k).row == First(table, k).value
  {
    hide Serialize, Deserialize, SerializeAll, ReadAt, RowSize, TotalSize;
    var i := Place(table, k);
    SerializedSlice(table, i);
    ReadBack(SerializeAll(table), table[i], TotalSize(table[..i]), RowSize(table[i]));
  }

  /** One segment answers with its table's row, if that fits. */
  lemma SegmentRow(id: nat, batch: seq<Row>, k: u64, d: Disk)
    requires id < TWO32 && id in d.chunks && d.chunks[id] == SerializeAll(TableOf(batch))
    requires First(TableOf(batch), k).Some? ==> RowFits(TableOf(batch), Place(TableOf(batch), k))
    ensures SegmentIndex(id, batch).fileId == id
    ensures k in SegmentIndex(id, batch).hints <==> First(TableOf(batch), k).Some?
    ensures k in SegmentIndex(id, batch).hints ==>
              var h := SegmentIndex(id, batch).hints[k];
              var r := ChunkRow(d, SearchHint(id, h.offset, h.size));
              r.Decoded? && r.row == First(TableOf(batch), k).value
  {
    hide ChunkRow, SerializeAll, TableOf, ReadWrapped, RowFits, SegmentIndex;
    SegmentRead(id, batch, k, d);
    if First(TableOf(batch), k).Some? {
      FittingRead(TableOf(batch), k);
    }
  }

  // ----- All segments -----

  ghost predicate HasChunks(d: Disk, batches: seq<seq<Row>>) {
    forall i: nat | i < |batches| :: i in d.chunks && d.chunks[i] == SerializeAll(TableOf(batches[i]))
  }

  /** What the newest segment that holds the key gives for it. */
  function DiskRead(batches: seq<seq<Row>>, k: u64): Option<DecodeResult> {
    if batches == [] then None
    else
      var n := |batches| - 1;
      if First(TableOf(batches[n]), k).Some? then Some(ReadWrapped(TableOf(batches[n]), k))
      else DiskRead(batches[..n], k)
  }

  /** The list finds a hint exactly when a segment holds the key, and the hint
      leads into the newest such segment, fitting or not. */
  lemma {:induction false} SearchReads(batches: seq<seq<Row>>, k: u64, d: Disk)
    requires |batches| <= TWO32 && HasChunks(d, batches)
    ensures Search(Tables(batches), k).Some? <==> DiskRead(batches, k).Some?
    ensures Search(Tables(batches), k).Some? ==>
              ChunkRow(d, Search(Tables(batches), k).value) == DiskRead(batches, k).value
  {
    hide ChunkRow, SerializeAll, TableOf, SegmentIndex, Search, First, ReadWrapped;
    if batches == [] {
      SearchNothing(k);
    } else {
      var n := |batches| - 1;
      SearchReads(batches[..n], k, d);
      SegmentRead(n, batches[n], k, d);
      SearchCons(SegmentIndex(n, batches[n]), Tables(batches[..n]), k);
    }
  }

  lemma {:induction false} DiskReadIs(batches: seq<seq<Row>>, k: u64)
    ensures DiskRead(batches, k).Some? <==> DiskNewest(batches, k).Some?
    ensures DiskRead(batches, k).Some? && KeyFits(batches, k) ==>
              var r := DiskRead(batches, k).value;
              r.Decoded? && r.row == DiskNewest(batches, k).value
  {
    hide TableOf, ReadWrapped, RowFits;
    if batches != [] {
      var n := |batches| - 1;
      DiskReadIs(batches[..n], k);
      if First(TableOf(batches[n]), k).Some? && KeyFits(batches, k) {
        FittingRead(TableOf(batches[n]), k);
      }
    }
  }

  /** If the row fits, the hint leads to the newest row. */
  lemma SearchFinds(batches: seq<seq<Row>>, k: u64, d: Disk)
    requires |batches| <= TWO32 && KeyFits(batches, k) && HasChunks(d, batches)
    ensures Search(Tables(batches), k).Some? <==> DiskNewest(batches, k).Some?
    ensures Search(Tables(batches), k).Some? ==>
              var r := ChunkRow(d, Search(Tables(batches), k).value);
              r.Decoded? && r.row == DiskNewest(batches, k).value
  {
    SearchReads(batches, k, d);
    DiskReadIs(batches, k);
  }

  lemma SearchNothing(k: u64)
    ensures Search([], k) == None
  {
  }

  lemma SearchCons(t: TableIndex, rest: seq<TableIndex>, k: u64)
    ensures Search([t] + rest, k)
         == if k in t.hints then Some(SearchHint(t.fileId, t.hints[k].offset, t.hints[k].size))
            else Search(rest, k)
  {
  }

  /** No false negatives: a key that some segment holds passes the filter. */
  lemma {:induction false} FilterPasses(s: Shape, batches: seq<seq<Row>>, k: u64)
    requires s.Valid() && DiskNewest(batches, k).Some?
    ensures ProbablyContains(s, Bits(s, batches), k)
  {
    hide ProbablyContains, TableOf, AddRows;
    var n := |batches| - 1;
    if First(TableOf(batches[n]), k).Some? {
      var i := Place(TableOf(batches[n]), k);
      AddRowsContains(s, Bits(s, batches[..n]), TableOf(batches[n]), k);
    } else {
      FilterPasses(s, batches[..n], k);
      AddRowsContains(s, Bits(s, batches[..n]), TableOf(batches[n]), k);
    }
  }

  /** The exact meaning of `get`, with no condition on sizes or on removes: the
      live row in the memtable, or whatever stands, cut to 32 bits, at the place of
      the key's row in the newest segment that holds one. */
  lemma GetExactly(env: Env, h: History, k: u64)
    requires env.Valid() && |h.batches| <= TWO32
    ensures Get(env, StateOf(env, h), k)
         == if LiveOnly(Newest(h.tail, k)).Some? then Deliver(env, Newest(h.tail, k).value)
            else if DiskRead(h.batches, k).Some? then DeliverChunk(env, DiskRead(h.batches, k).value)
            else NotFound
  {
    hide ChunkRow, SerializeAll, TableOf, ProbablyContains, Tables, Bits, Deliver, MemOf, Find, DiskNewest,
         DiskRead, Search, IndexFilesOf;
    var s := StateOf(env, h);
    assert FindInMemory(s, k) == LiveOnly(Newest(h.tail, k)) by {
      LookupIsNewest(h.tail, k);
    }
    HasOwnChunks(env, h.batches);
    assert HasChunks(s.disk, h.batches);
    SearchReads(h.batches, k, s.disk);
    DiskReadIs(h.batches, k);
    if DiskNewest(h.batches, k).Some? {
      FilterPasses(env.shape, h.batches, k);
    }
  }

  /** If the row that answers fits, `get` delivers it, whatever was removed when. */
  lemma GetMeaning(env: Env, h: History, k: u64)
    requires env.Valid() && |h.batches| <= TWO32
    requires LiveOnly(Newest(h.tail, k)).None? ==> KeyFits(h.batches, k)
    ensures Get(env, StateOf(env, h), k) == DeliverSeen(env, Seen(h, k))
  {
    hide Get, StateOf, KeyFits, DiskNewest, DiskRead, Deliver;
    GetExactly(env, h, k);
    DiskReadIs(h.batches, k);
  }

  /** The newest row on disk, told from the batches alone: the last batch that
      mentions the key answers, but a batch of nothing but MAX is lost. */
  lemma DiskNewestIs(batches: seq<seq<Row>>, batch: seq<Row>, k: u64)
    ensures DiskNewest(batches + [batch], k)
         == if SentinelOnly(batch) then DiskNewest(batches, k)
            else OrElse(Newest(batch, k), DiskNewest(batches, k))
  {
    var all := batches + [batch];
    assert all[..|all| - 1] == batches;
    TableLookup(batch, k);
  }

  /** A value overwritten in place in its segment file is reported, not delivered,
      as soon as its hash differs from the stored checksum. */
  lemma TamperedValueIsDetected(env: Env, h: History, k: u64, hint: SearchHint, d: Disk, altered: Row)
    requires env.Valid() && |h.batches| <= TWO32 && LiveOnly(Newest(h.tail, k)).None?
    requires Search(Tables(h.batches), k) == Some(hint)
    requires hint.fileId in d.chunks && hint.offset + hint.size <= |d.chunks[hint.fileId]|
    requires d.chunks[hint.fileId][hint.offset..hint.offset + hint.size] == Serialize(altered)
    requires altered.Live() && env.hash(altered.value) != altered.checksum
    ensures Get(env, StateOf(env, h).(disk := d), k) == ChecksumError
  {
    hide Serialize, Deserialize, SerializeAll, TableOf, ProbablyContains, Tables, Bits, MemOf, Find, ReadAt,
         HintsFit, DiskNewest, Chunks, IndexFilesOf, Search;
    var s := StateOf(env, h);
    assert FindInMemory(s.(disk := d), k) == LiveOnly(Newest(h.tail, k)) by {
      LookupIsNewest(h.tail, k);
    }
    HasOwnChunks(env, h.batches);
    SearchReads(h.batches, k, DiskOf(env, h.batches));
    DiskReadIs(h.batches, k);
    FilterPasses(env.shape, h.batches, k);
    ReadBack(d.chunks[hint.fileId], altered, hint.offset, hint.size);
  }

  lemma HasOwnChunks(env: Env, batches: seq<seq<Row>>)
    requires env.Valid()
    ensures HasChunks(DiskOf(env, batches), batches)
  {
    hide SerializeAll, TableOf, IndexFilesOf, Bits;
  }
}
