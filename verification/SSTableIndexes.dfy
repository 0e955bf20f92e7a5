/** One segment's index: from key to the place of its row in the segment file. */
module SSTableIndexes {
  import opened Bytes
  import opened Streams
  import opened Rows
  import opened Records
  import opened SSTables

  datatype Hint = Hint(offset: u32, size: u32)

  /** The value of an index object. */
  datatype TableIndex = TableIndex(fileId: u32, hints: map<u64, Hint>)

  // ----- Building from a table -----

  /** The constructor's loop: insert-or-assign row after row, with 32-bit
      arithmetic on the running offset and on the sizes. */
  function Register(hints: map<u64, Hint>, rows: seq<Row>, offset: u32): map<u64, Hint>
    decreases rows
  {
    if rows == [] then hints
    else
      var size := RowSize(rows[0]);
      Register(hints[rows[0].key := Hint(offset, Low32(size))], rows[1..], Low32(offset + size))
  }

  function IndexOf(fileId: u32, rows: seq<Row>): TableIndex {
    TableIndex(fileId, Register(map[], rows, 0))
  }

  /** The row's offset and size stay below 2^32. */
  predicate RowFits(rows: seq<Row>, i: nat)
    requires i < |rows|
  {
    TotalSize(rows[..i]) < TWO32 && RowSize(rows[i]) < TWO32
  }

  ghost predicate HintsFit(rows: seq<Row>) {
    forall i: nat | i < |rows| :: RowFits(rows, i)
  }

  lemma {:induction false} RegisterKeys(hints: map<u64, Hint>, rows: seq<Row>, offset: u32, k: u64)
    ensures k in Register(hints, rows, offset) <==> k in hints || First(rows, k).Some?
    ensures First(rows, k).None? && k in hints ==> Register(hints, rows, offset)[k] == hints[k]
    decreases rows
  {
    if rows != [] {
      var size := RowSize(rows[0]);
      RegisterKeys(hints[rows[0].key := Hint(offset, Low32(size))], rows[1..],
                   Low32(offset + size), k);
    }
  }

  /** The hint of the last row with its key, wrap-around included. */
  lemma {:induction false} RegisteredHint(hints: map<u64, Hint>, rows: seq<Row>, offset: u32, i: nat)
    requires i < |rows| && forall j | i < j < |rows| :: rows[j].key != rows[i].key
    ensures rows[i].key in Register(hints, rows, offset)
    ensures Register(hints, rows, offset)[rows[i].key]
         == Hint(Low32(offset + TotalSize(rows[..i])), Low32(RowSize(rows[i])))
    decreases rows
  {
    hide RowSize, TotalSize, Low32;
    var size := RowSize(rows[0]);
    var hints', offset' := hints[rows[0].key := Hint(offset, Low32(size))], Low32(offset + size);
    SizeBefore(rows, i);
    Low32Of(offset);
    if i == 0 {
      RegisterKeys(hints', rows[1..], offset', rows[0].key);
      assert First(rows[1..], rows[0].key).None?;
    } else {
      assert forall j | i - 1 < j < |rows[1..]| :: rows[1..][j] == rows[j + 1];
      RegisteredHint(hints', rows[1..], offset', i - 1);
      WrapAdd(offset + size, TotalSize(rows[1..][..i - 1]));
    }
  }

  lemma SizeBefore(rows: seq<Row>, i: nat)
    requires i < |rows|
    ensures TotalSize(rows[..i]) == if i == 0 then 0 else RowSize(rows[0]) + TotalSize(rows[1..][..i - 1])
  {
    if i > 0 {
      assert rows[..i][1..] == rows[1..][..i - 1];
    }
  }

  lemma WrapAdd(a: nat, b: nat)
    ensures Low32(Low32(a) + b) == Low32(a + b)
  {
  }

  /** The hint is the row's true place exactly when the row fits. */
  lemma HintIsExact(fileId: u32, rows: seq<Row>, i: nat)
    requires StrictlyKeyed(rows) && i < |rows|
    ensures rows[i].key in IndexOf(fileId, rows).hints
    ensures var h := IndexOf(fileId, rows).hints[rows[i].key];
            h.offset == TotalSize(rows[..i]) && h.size == RowSize(rows[i]) <==> RowFits(rows, i)
  {
    hide Register, RowSize, TotalSize;
    RegisteredHint(map[], rows, 0, i);
  }

  // ----- The index file -----

  function EncodeHint(k: u64, h: Hint): (b: seq<byte>)
    ensures |b| == 18
  {
    [8] + (ToLE(k, 8) + ([8] + (ToLE(h.offset, 4) + ToLE(h.size, 4))))
  }

  function EncodeHints(hints: map<u64, Hint>, order: seq<u64>): (b: seq<byte>)
    requires forall k | k in order :: k in hints
    ensures |b| == 18 * |order|
  {
    if order == [] then [] else EncodeHint(order[0], hints[order[0]]) + EncodeHints(hints, order[1..])
  }

  /** `order` is one traversal of the hash map: every key once. */
  ghost predicate Traverses(order: seq<u64>, hints: map<u64, Hint>) {
    && (forall k :: k in order <==> k in hints)
    && (forall i, j | 0 <= i < j < |order| :: order[i] != order[j])
  }

  function Encode(t: TableIndex, order: seq<u64>): seq<byte>
    requires forall k | k in order :: k in t.hints
  {
    [4] + ToLE(t.fileId, 4) + EncodeHints(t.hints, order)
  }

  /** The locals of `load`, declared before its loop: a read that comes up short
      leaves what the previous round put there. */
  datatype Locals = Locals(sizeOfKey: byte, key: seq<byte>, sizeOfHint: byte, hint: seq<byte>) {

    predicate Valid() {
      |key| == 8 && |hint| == 8
    }
  }

  const FRESH := Locals(0, Zeros(8), 0, Zeros(8))

  datatype Round = Round(locals: Locals, rest: Cursor) | Overflow

  datatype IndexLoad = IndexLoaded(index: TableIndex) | IndexUndefined

  function ReadKey(c: Cursor, l: Locals): (r: Round)
    requires c.Valid() && l.Valid()
    ensures r.Round? ==> r.rest.Valid() && r.locals.Valid() && r.rest.data == c.data
    ensures r.Round? && r.rest.Good() ==> c.Good() && r.rest.pos > c.pos
  {
    var size := Overlay([l.sizeOfKey], c.Got(1))[0];
    var c1 := c.Skip(1);
    var got := c1.Got(size);
    if |got| > 8 then Overflow
    else Round(l.(sizeOfKey := size, key := Overlay(l.key, got)), c1.Skip(size))
  }

  function ReadHint(c: Cursor, l: Locals): (r: Round)
    requires c.Valid() && l.Valid()
    ensures r.Round? ==> r.rest.Valid() && r.locals.Valid() && r.rest.data == c.data
    ensures r.Round? && r.rest.Good() ==> c.Good() && r.rest.pos > c.pos
  {
    var size := Overlay([l.sizeOfHint], c.Got(1))[0];
    var c1 := c.Skip(1);
    var got := c1.Got(size);
    if |got| > 8 then Overflow
    else Round(l.(sizeOfHint := size, hint := Overlay(l.hint, got)), c1.Skip(size))
  }

  function KeyOf(l: Locals): u64
    requires l.Valid()
  {
    Word(l.key)
  }

  function HintOf(l: Locals): Hint
    requires l.Valid()
  {
    Hint(HalfWord(l.hint[..4]), HalfWord(l.hint[4..]))
  }

  function HalfWord(b: seq<byte>): (w: u32)
    requires |b| == 4
  {
    PowValues();
    FromLE(b)
  }

  /** The `while (!eof)` loop of `load`; an already present key keeps its hint. */
  function LoadHints(fileId: u32, hints: map<u64, Hint>, c: Cursor, l: Locals): IndexLoad
    requires c.Valid() && l.Valid()
    decreases !c.eof, |c.data| - c.pos
  {
    if c.eof then IndexLoaded(TableIndex(fileId, hints))
    else
      var k := ReadKey(c, l);
      if k.Overflow? then IndexUndefined
      else
        var h := ReadHint(k.rest, k.locals);
        if h.Overflow? then IndexUndefined
        else LoadHints(fileId, Keep(hints, KeyOf(h.locals), HintOf(h.locals)), h.rest.Peek(), h.locals)
  }

  function Keep(hints: map<u64, Hint>, k: u64, h: Hint): map<u64, Hint> {
    if k in hints then hints else hints[k := h]
  }

  /** `load` into an object that may already hold an id and hints. */
  function LoadInto(t: TableIndex, c: Cursor): IndexLoad
    requires c.Valid()
  {
    var size := Overlay([0], c.Got(1))[0];
    var c1 := c.Skip(1);
    var got := c1.Got(size);
    if |got| > 4 then IndexUndefined
    else LoadHints(HalfWord(Overlay(ToLE(t.fileId, 4), got)), t.hints, c1.Skip(size), FRESH)
  }

  /** A file loaded as the directory loader does it, into a new object. */
  function LoadIndex(data: seq<byte>): IndexLoad {
    LoadInto(TableIndex(0, map[]), Open(data))
  }

  lemma LoadIndexIs(data: seq<byte>)
    ensures LoadIndex(data) == LoadInto(TableIndex(0, map[]), Open(data))
  {
  }

  // ----- The file, byte by byte -----

  /** Where every byte of a key's record stands. */
  lemma HintBytes(k: u64, h: Hint)
    ensures var s := EncodeHint(k, h);
            && s[0] == 8 && s[9] == 8
            && (forall i | 0 <= i < 8 :: s[1 + i] == k / Pow256(i) % 256)
            && (forall i | 0 <= i < 4 :: s[10 + i] == h.offset / Pow256(i) % 256)
            && (forall i | 0 <= i < 4 :: s[14 + i] == h.size / Pow256(i) % 256)
  {
    hide ToLE, Pow256;
    var s := EncodeHint(k, h);
    forall i | 0 <= i < 8 ensures s[1 + i] == k / Pow256(i) % 256 {
      DigitAt(k, 8, i);
      assert s[1 + i] == ToLE(k, 8)[i];
    }
    forall i | 0 <= i < 4
      ensures s[10 + i] == h.offset / Pow256(i) % 256 && s[14 + i] == h.size / Pow256(i) % 256
    {
      DigitAt(h.offset, 4, i);
      DigitAt(h.size, 4, i);
      assert s[10 + i] == ToLE(h.offset, 4)[i] && s[14 + i] == ToLE(h.size, 4)[i];
    }
  }

  lemma {:induction false} RecordAt(hints: map<u64, Hint>, order: seq<u64>, j: nat)
    requires j < |order| && forall k | k in order :: k in hints
    ensures EncodeHints(hints, order)[18 * j..18 * (j + 1)] == EncodeHint(order[j], hints[order[j]])
  {
    hide EncodeHint;
    var head, rest := EncodeHint(order[0], hints[order[0]]), EncodeHints(hints, order[1..]);
    if j > 0 {
      RecordAt(hints, order[1..], j - 1);
      assert (head + rest)[18 * j..18 * (j + 1)] == rest[18 * (j - 1)..18 * j];
    }
  }

  /** The file: a size byte 4, the file id, and 18 bytes for each key. */
  lemma FileBytes(t: TableIndex, order: seq<u64>)
    requires forall k | k in order :: k in t.hints
    ensures var data := Encode(t, order);
            && |data| == 5 + 18 * |order| && data[0] == 4
            && (forall i | 0 <= i < 4 :: data[1 + i] == t.fileId / Pow256(i) % 256)
            && forall j | 0 <= j < |order| ::
                 data[5 + 18 * j..5 + 18 * (j + 1)] == EncodeHint(order[j], t.hints[order[j]])
  {
    hide EncodeHint, ToLE, Pow256, EncodeHints;
    var data, records := Encode(t, order), EncodeHints(t.hints, order);
    forall i | 0 <= i < 4 ensures data[1 + i] == t.fileId / Pow256(i) % 256 {
      DigitAt(t.fileId, 4, i);
    }
    assert data[5..] == records;
    forall j | 0 <= j < |order|
      ensures data[5 + 18 * j..5 + 18 * (j + 1)] == EncodeHint(order[j], t.hints[order[j]])
    {
      RecordAt(t.hints, order, j);
      assert data[5 + 18 * j..5 + 18 * (j + 1)] == records[18 * j..18 * (j + 1)];
    }
  }

  /** What one local holds after its read at `p`: what there was, where bytes end. */
  predicate ReadOver(data: seq<byte>, p: nat, size: nat, before: seq<byte>, after: seq<byte>) {
    |after| == |before| && forall i | 0 <= i < |after| ::
      after[i] == if i < size && p + i < |data| then data[p + i] else before[i]
  }

  lemma OverlayReads(c: Cursor, p: nat, size: nat, before: seq<byte>)
    requires c.Valid() && StandsAt(c, p)
    ensures |c.Got(size)| > |before| <==> Overruns(c.data, p, size, |before|)
    ensures |c.Got(size)| <= |before| ==> ReadOver(c.data, p, size, before, Overlay(before, c.Got(size)))
    ensures StandsAt(c.Skip(size), p + size)
  {
  }

  /** The first half of a round on arbitrary bytes. */
  lemma KeyReads(c: Cursor, p: nat, l: Locals)
    requires c.Valid() && l.Valid() && StandsAt(c, p)
    ensures var size := if p < |c.data| then c.data[p] else l.sizeOfKey;
            && (ReadKey(c, l).Overflow? <==> Overruns(c.data, p + 1, size, 8))
            && (ReadKey(c, l).Round? ==>
                  var r := ReadKey(c, l);
                  r.locals == l.(sizeOfKey := size, key := r.locals.key)
                  && ReadOver(c.data, p + 1, size, l.key, r.locals.key) && StandsAt(r.rest, p + 1 + size))
  {
    hide Cursor.Got, Cursor.Skip, StandsAt, Overlay;
    OverlayReads(c, p, 1, [l.sizeOfKey]);
    OverlayReads(c.Skip(1), p + 1, Overlay([l.sizeOfKey], c.Got(1))[0], l.key);
  }

  lemma HintReads(c: Cursor, p: nat, l: Locals)
    requires c.Valid() && l.Valid() && StandsAt(c, p)
    ensures var size := if p < |c.data| then c.data[p] else l.sizeOfHint;
            && (ReadHint(c, l).Overflow? <==> Overruns(c.data, p + 1, size, 8))
            && (ReadHint(c, l).Round? ==>
                  var r := ReadHint(c, l);
                  r.locals == l.(sizeOfHint := size, hint := r.locals.hint)
                  && ReadOver(c.data, p + 1, size, l.hint, r.locals.hint) && StandsAt(r.rest, p + 1 + size))
  {
    hide Cursor.Got, Cursor.Skip, StandsAt, Overlay;
    OverlayReads(c, p, 1, [l.sizeOfHint]);
    OverlayReads(c.Skip(1), p + 1, Overlay([l.sizeOfHint], c.Got(1))[0], l.hint);
  }

  /** A round that runs into the end of the file counts like any other. */
  lemma LastRoundCounts(fileId: u32, hints: map<u64, Hint>, c: Cursor, l: Locals)
    requires c.Valid() && l.Valid() && !c.eof && ReadKey(c, l).Round?
    requires var r := ReadHint(ReadKey(c, l).rest, ReadKey(c, l).locals);
             r.Round? && r.rest.Peek().eof
    ensures var r := ReadHint(ReadKey(c, l).rest, ReadKey(c, l).locals).locals;
            LoadHints(fileId, hints, c, l)
            == IndexLoaded(TableIndex(fileId,
                 if KeyOf(r) in hints then hints else hints[KeyOf(r) := HintOf(r)]))
  {
    hide ReadKey, ReadHint, KeyOf, HintOf;
  }

  /** A file of no bytes loads as the object was before. */
  lemma EmptyFileLoadsNothing(t: TableIndex)
    ensures LoadInto(t, Open([])) == IndexLoaded(t)
  {
    hide HalfWord, ToLE, ReadKey, ReadHint;
    HalfWordOf(t.fileId);
    assert Open([]).Got(1) == [] && Overlay([0], []) == [0];
    assert Overlay(ToLE(t.fileId, 4), []) == ToLE(t.fileId, 4);
  }

  // ----- Round trip -----

  lemma HalfWordOf(n: u32)
    ensures HalfWord(ToLE(n, 4)) == n
  {
    PowValues();
    LittleEndianRoundTrip(n, 4);
  }

  lemma GotAt(c: Cursor, s: seq<byte>, a: nat, b: nat)
    requires c.Valid() && c.Good() && c.pos + |s| <= |c.data|
    requires c.data[c.pos..c.pos + |s|] == s && a <= b <= |s|
    ensures var at := Cursor(c.data, c.pos + a, false, false);
            at.Got(b - a) == s[a..b] && at.Skip(b - a) == Cursor(c.data, c.pos + b, false, false)
  {
    SubSlice(c.data, c.pos, |s|, a, b);
  }

  /** One round over an encoded hint reads the key and the hint back. */
  lemma HintRoundTrip(c: Cursor, l: Locals, k: u64, h: Hint)
    requires c.Valid() && c.Good() && l.Valid() && c.pos + 18 <= |c.data|
    requires c.data[c.pos..c.pos + 18] == EncodeHint(k, h)
    ensures ReadKey(c, l).Round?
    ensures var r := ReadHint(ReadKey(c, l).rest, ReadKey(c, l).locals);
            && r.Round? && KeyOf(r.locals) == k && HintOf(r.locals) == h
            && r.rest == Cursor(c.data, c.pos + 18, false, false)
  {
    hide Cursor.Got, Cursor.Skip, Word, HalfWord, ToLE, FromLE;
    var s := EncodeHint(k, h);
    assert s[0..1] == [8] && s[1..9] == ToLE(k, 8) && s[9..10] == [8];
    assert s[10..18] == ToLE(h.offset, 4) + ToLE(h.size, 4) by {
      assert s[10..] == ToLE(h.offset, 4) + ToLE(h.size, 4);
    }
    GotAt(c, s, 0, 1);
    GotAt(c, s, 1, 9);
    GotAt(c, s, 9, 10);
    GotAt(c, s, 10, 18);
    WordOf(k);
    HalfWordOf(h.offset);
    HalfWordOf(h.size);
    OverlayAll(l.key, s[1..9]);
    OverlayAll(l.hint, s[10..18]);
    var b := s[10..18];
    assert b[..4] == ToLE(h.offset, 4) && b[4..] == ToLE(h.size, 4);
  }

  function KeepAll(hints: map<u64, Hint>, from: map<u64, Hint>, order: seq<u64>): map<u64, Hint>
    requires forall k | k in order :: k in from
    decreases order
  {
    if order == [] then hints else KeepAll(Keep(hints, order[0], from[order[0]]), from, order[1..])
  }

  lemma {:induction false} LoadHintsFrom(fileId: u32, hints: map<u64, Hint>, c: Cursor, l: Locals,
                                         from: map<u64, Hint>, order: seq<u64>)
    requires c.Valid() && c.Good() && l.Valid() && order != []
    requires forall k | k in order :: k in from
    requires c.data[c.pos..] == EncodeHints(from, order)
    ensures LoadHints(fileId, hints, c, l) == IndexLoaded(TableIndex(fileId, KeepAll(hints, from, order)))
    decreases order
  {
    hide ReadKey, ReadHint, KeyOf, HintOf, EncodeHint;
    var k := order[0];
    var s, tail := EncodeHint(k, from[k]), EncodeHints(from, order[1..]);
    assert c.data[c.pos..] == s + tail;
    assert c.data[c.pos..c.pos + 18] == s by {
      assert c.data[c.pos..][..18] == s;
    }
    HintRoundTrip(c, l, k, from[k]);
    var next := Cursor(c.data, c.pos + 18, false, false);
    assert c.data[next.pos..] == tail by {
      assert c.data[c.pos..][18..] == tail;
    }
    if order[1..] != [] {
      LoadHintsFrom(fileId, Keep(hints, k, from[k]), next,
                    ReadHint(ReadKey(c, l).rest, ReadKey(c, l).locals).locals, from, order[1..]);
    }
  }

  lemma {:induction false} KeepAllExact(hints: map<u64, Hint>, from: map<u64, Hint>, order: seq<u64>, k: u64)
    requires forall x | x in order :: x in from
    ensures k in KeepAll(hints, from, order) <==> k in hints || k in order
    ensures k in hints ==> KeepAll(hints, from, order)[k] == hints[k]
    ensures k !in hints && k in order ==> KeepAll(hints, from, order)[k] == from[k]
    decreases order
  {
    if order != [] {
      KeepAllExact(Keep(hints, order[0], from[order[0]]), from, order[1..], k);
      assert order == [order[0]] + order[1..];
    }
  }

  /** The index file of a non-empty index, written in any traversal order, loads
      back as the same file id and the same map. */
  lemma IndexRoundTrip(t: TableIndex, order: seq<u64>)
    requires Traverses(order, t.hints) && order != []
    ensures LoadIndex(Encode(t, order)) == IndexLoaded(t)
  {
    hide ReadKey, ReadHint, KeyOf, HintOf, EncodeHint, LoadHints, HalfWord, ToLE;
    var data := Encode(t, order);
    HeaderRoundTrip(t, order);
    var c := Cursor(data, 5, false, false);
    assert data[5..] == EncodeHints(t.hints, order);
    LoadHintsFrom(t.fileId, map[], c, FRESH, t.hints, order);
    forall k ensures k in KeepAll(map[], t.hints, order) <==> k in t.hints
             ensures k in t.hints ==> KeepAll(map[], t.hints, order)[k] == t.hints[k] {
      KeepAllExact(map[], t.hints, order, k);
    }
    assert KeepAll(map[], t.hints, order) == t.hints;
  }

  lemma HeaderRoundTrip(t: TableIndex, order: seq<u64>)
    requires forall k | k in order :: k in t.hints
    ensures var data := Encode(t, order);
            LoadIndex(data) == LoadHints(t.fileId, map[], Cursor(data, 5, false, false), FRESH)
  {
    hide ReadKey, ReadHint, KeyOf, HintOf, EncodeHint, LoadHints, HalfWord, ToLE;
    var data := Encode(t, order);
    assert data[0..1] == [4] && data[1..5] == ToLE(t.fileId, 4);
    HalfWordOf(t.fileId);
    assert Overlay(ToLE(0, 4), data[1..5]) == data[1..5];
  }

  /** The hypothesis is tight: the file of an empty index loads as one bogus hint
      for key 0, because the loop tests the end of the stream too late. */
  lemma EmptyIndexGainsKeyZero(fileId: u32)
    ensures LoadIndex(Encode(TableIndex(fileId, map[]), []))
         == IndexLoaded(TableIndex(fileId, map[0 := Hint(0, 0)]))
  {
    hide HalfWord, Word, ToLE, ReadKey, ReadHint;
    HeaderRoundTrip(TableIndex(fileId, map[]), []);
    RoundAtEnd(Cursor(Encode(TableIndex(fileId, map[]), []), 5, false, false));
  }

  lemma RoundAtEnd(c: Cursor)
    requires c.Valid() && c.Good() && c.pos == |c.data|
    ensures ReadKey(c, FRESH).Round?
    ensures var r := ReadHint(ReadKey(c, FRESH).rest, ReadKey(c, FRESH).locals);
            r.Round? && r.rest.eof && KeyOf(r.locals) == 0 && HintOf(r.locals) == Hint(0, 0)
  {
    hide HalfWord, Word;
    assert c.Got(1) == [] && Overlay([0], []) == [0] && Overlay(Zeros(8), []) == Zeros(8);
    assert Zeros(8)[..4] == Zeros(4) && Zeros(8)[4..] == Zeros(4);
    ZeroWords();
  }

  lemma ZeroWords()
    ensures Word(Zeros(8)) == 0 && HalfWord(Zeros(4)) == 0
  {
    ZeroIsZero(8);
    ZeroIsZero(4);
  }

  lemma {:induction false} ZeroIsZero(n: nat)
    ensures FromLE(Zeros(n)) == 0
  {
    if n > 0 {
      assert Zeros(n)[1..] == Zeros(n - 1);
      ZeroIsZero(n - 1);
    }
  }

  // ----- The object -----

  /** The loop's first two reads. */
  method ReadKeyFrom(stream: InStream, l: Locals) returns (r: Round)
    requires stream.View().Valid() && l.Valid()
    modifies stream
    ensures r == ReadKey(old(stream.View()), l)
    ensures stream.View().Valid() && (r.Round? ==> stream.View() == r.rest)
  {
    hide Cursor.Got, Cursor.Skip;
    var size := stream.Read(1);
    size := Overlay([l.sizeOfKey], size);
    var key := stream.Read(size[0]);
    if |key| > 8 {
      return Overflow;
    }
    r := Round(l.(sizeOfKey := size[0], key := Overlay(l.key, key)),
               Cursor(stream.data, stream.pos, stream.eof, stream.fail));
  }

  /** Its other two. */
  method ReadHintFrom(stream: InStream, l: Locals) returns (r: Round)
    requires stream.View().Valid() && l.Valid()
    modifies stream
    ensures r == ReadHint(old(stream.View()), l)
    ensures stream.View().Valid() && (r.Round? ==> stream.View() == r.rest)
  {
    hide Cursor.Got, Cursor.Skip;
    var size := stream.Read(1);
    size := Overlay([l.sizeOfHint], size);
    var hint := stream.Read(size[0]);
    if |hint| > 8 {
      return Overflow;
    }
    r := Round(l.(sizeOfHint := size[0], hint := Overlay(l.hint, hint)),
               Cursor(stream.data, stream.pos, stream.eof, stream.fail));
  }

  class SSTableIndex {
    var hints: map<u64, Hint>
    var fileId: u32

    ghost function View(): TableIndex
      reads this
    {
      TableIndex(fileId, hints)
    }

    constructor (fileId: u32)
      ensures View() == TableIndex(fileId, map[])
    {
      this.fileId := fileId;
      hints := map[];
    }

    constructor FromTable(fileId: u32, table: SSTable)
      ensures View() == IndexOf(fileId, table.rows)
    {
      this.fileId := fileId;
      hints := map[];
      new;
      var offset: u32 := 0;
      for i := 0 to |table.rows|
        invariant this.fileId == fileId
        invariant Register(hints, table.rows[i..], offset) == Register(map[], table.rows, 0)
      {
        var row := table.rows[i];
        assert table.rows[i..][1..] == table.rows[i + 1..];
        var size := GetRowSize(row);
        Insert(row.key, Hint(offset, Low32(size)));
        size := GetRowSize(row);
        offset := Low32(offset + size);
      }
    }

    /** `insert_or_assign`. */
    method Insert(key: u64, hint: Hint)
      modifies this
      ensures View() == old(View()).(hints := old(hints)[key := hint])
    {
      hints := hints[key := hint];
    }

    method Get(key: u64) returns (found: bool, hint: Hint)
      ensures found <==> key in hints
      ensures hint == if key in hints then hints[key] else Hint(0, 0)
    {
      if key !in hints {
        return false, Hint(0, 0);
      }
      return true, hints[key];
    }

    /** `order` is the order in which the hash map happens to be traversed. */
    method Dump(order: seq<u64>) returns (stream: seq<byte>)
      requires Traverses(order, hints)
      ensures stream == Encode(View(), order)
    {
      stream := [4] + ToLE(fileId, 4);
      ghost var header := stream;
      for i := 0 to |order|
        invariant stream + EncodeHints(hints, order[i..]) == Encode(View(), order)
      {
        var key := order[i];
        var hint := hints[key];
        assert order[i..][1..] == order[i + 1..];
        var record := [8] + (ToLE(key, 8) + ([8] + (ToLE(hint.offset, 4) + ToLE(hint.size, 4))));
        Associative(stream, record, EncodeHints(hints, order[i + 1..]));
        stream := stream + record;
      }
      assert stream + [] == stream;
    }

    /** A read that comes up short keeps the rest of the old file id. */
    method Load(stream: InStream) returns (defined: bool)
      requires stream.View().Valid()
      modifies this, stream
      ensures defined <==> LoadInto(old(View()), old(stream.View())).IndexLoaded?
      ensures defined ==> View() == LoadInto(old(View()), old(stream.View())).index
    {
      hide Cursor.Got, Cursor.Skip, ReadKey, ReadHint, KeyOf, HintOf, HalfWord;
      var sizeOfFileId := stream.Read(1);
      sizeOfFileId := Overlay([0], sizeOfFileId);
      var id := stream.Read(sizeOfFileId[0]);
      if |id| > 4 {
        return false;
      }
      fileId := HalfWord(Overlay(ToLE(fileId, 4), id));
      var l := FRESH;
      while !stream.eof
        invariant stream.View().Valid() && l.Valid()
        invariant LoadHints(fileId, hints, stream.View(), l) == LoadInto(old(View()), old(stream.View()))
        decreases !stream.eof, |stream.data| - stream.pos
      {
        var k := ReadKeyFrom(stream, l);
        if k.Overflow? {
          return false;
        }
        var h := ReadHintFrom(stream, k.locals);
        if h.Overflow? {
          return false;
        }
        l := h.locals;
        stream.Peek();
        hints := Keep(hints, KeyOf(l), HintOf(l));
      }
      defined := true;
    }
  }
}
