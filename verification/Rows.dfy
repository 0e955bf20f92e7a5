/** The row format shared by segment files and the write-ahead log. */
module Rows {
  import opened Bytes
  import opened Streams

  /** A pair of 64-bit words, the checksum type. */
  datatype UInt128 = UInt128(first: u64, second: u64)

  const PUT: byte := 0
  const REMOVE: byte := 1

  /** `op` is the raw byte of the entry type: a file may hold any byte there,
      and everything that is not REMOVE is read as a value. */
  datatype Row = Row(key: u64, value: Data, op: byte, checksum: UInt128) {

    predicate Live() {
      op != REMOVE
    }
  }

  /** What decoding yields. `Undefined` stands for the runs in which the program
      reads an uninitialised entry type or writes past a fixed-size local. */
  datatype DecodeResult = Decoded(row: Row, rest: Cursor) | Undefined

  datatype LoadResult = Loaded(rows: seq<Row>) | LoadUndefined

  // ----- Encoding -----

  /** The bytes a row takes: its value and 35 bytes of framing. */
  function RowSize(r: Row): nat {
    35 + |r.value|
  }

  function TotalSize(rows: seq<Row>): nat {
    if rows == [] then 0 else RowSize(rows[0]) + TotalSize(rows[1..])
  }

  function Serialize(r: Row): (s: seq<byte>)
    ensures |s| == RowSize(r)
  {
    [r.op] + ([8] + (ToLE(r.key, 8) + (ToLE(|r.value|, 8) + (r.value
      + ([16] + (ToLE(r.checksum.first, 8) + ToLE(r.checksum.second, 8)))))))
  }

  function SerializeAll(rows: seq<Row>): (s: seq<byte>)
    ensures |s| == TotalSize(rows)
  {
    if rows == [] then [] else Serialize(rows[0]) + SerializeAll(rows[1..])
  }

  /** `serialize`: eight writes to a string stream. */
  method SerializeRow(r: Row) returns (stream: seq<byte>)
    ensures stream == Serialize(r)
  {
    stream := [];
    stream := stream + [r.op];
    stream := stream + [8];
    stream := stream + ToLE(r.key, 8);
    stream := stream + ToLE(|r.value|, 8);
    stream := stream + r.value;
    stream := stream + [16];
    stream := stream + ToLE(r.checksum.first, 8) + ToLE(r.checksum.second, 8);
  }

  /** `getRowSize`: computed from the parts, never from the encoding. */
  method GetRowSize(r: Row) returns (totalBytes: nat)
    ensures totalBytes == RowSize(r) == |Serialize(r)|
  {
    var sizeOfKey, numBytes, sizeOfChecksum := 8, |r.value|, 16;
    totalBytes := 0;
    totalBytes := totalBytes + 1;
    totalBytes := totalBytes + 1;
    totalBytes := totalBytes + sizeOfKey;
    totalBytes := totalBytes + 8;
    totalBytes := totalBytes + numBytes;
    totalBytes := totalBytes + 1;
    totalBytes := totalBytes + sizeOfChecksum;
  }

  // ----- Decoding -----

  /** The stream overload of `deserialize`, field by field. */
  function Deserialize(c: Cursor): (d: DecodeResult)
    requires c.Valid()
    ensures d.Decoded? ==> c.Good() && d.rest.Valid() && d.rest.data == c.data && c.pos < d.rest.pos
  {
    if !c.Good() || c.pos == |c.data| then Undefined
    else DecodeKey(c.Take(1)[0], c.Skip(1))
  }

  function DecodeKey(op: byte, c: Cursor): (d: DecodeResult)
    requires c.Valid()
    ensures d.Decoded? ==> d.rest.Valid() && d.rest.data == c.data && c.pos <= d.rest.pos
  {
    var sizeOfKey := c.Take(1)[0];
    var c1 := c.Skip(1);
    var got := c1.Got(sizeOfKey);
    if |got| > 8 then Undefined
    else DecodeValue(op, Word(Overlay(Zeros(8), got)), c1.Skip(sizeOfKey))
  }

  function DecodeValue(op: byte, key: u64, c: Cursor): (d: DecodeResult)
    requires c.Valid()
    ensures d.Decoded? ==> d.rest.Valid() && d.rest.data == c.data && c.pos <= d.rest.pos
  {
    var numBytes, c1 := Word(c.Take(8)), c.Skip(8);
    DecodeChecksum(op, key, c1.Take(numBytes), c1.Skip(numBytes))
  }

  function DecodeChecksum(op: byte, key: u64, value: Data, c: Cursor): (d: DecodeResult)
    requires c.Valid()
    ensures d.Decoded? ==> d.rest.Valid() && d.rest.data == c.data && c.pos <= d.rest.pos
  {
    var sizeOfChecksum := c.Take(1)[0];
    var c1 := c.Skip(1);
    var got := c1.Got(sizeOfChecksum);
    if |got| > 16 then Undefined
    else
      var sum := Overlay(Zeros(16), got);
      Decoded(Row(key, value, op, UInt128(Word(sum[..8]), Word(sum[8..]))), c1.Skip(sizeOfChecksum))
  }

  /** A 64-bit little-endian word. */
  function Word(b: seq<byte>): (w: u64)
    requires |b| == 8
  {
    PowValues();
    FromLE(b)
  }

  method DeserializeFrom(stream: InStream) returns (d: DecodeResult)
    requires stream.View().Valid()
    modifies stream
    ensures d == Deserialize(old(stream.View()))
    ensures d.Decoded? ==> stream.View() == d.rest
    ensures stream.View().Valid()
  {
    hide Cursor.Got, Cursor.Take, Cursor.Skip, Word, FromLE;
    if stream.eof || stream.fail || stream.pos == |stream.data| {
      return Undefined;
    }
    var op := stream.ReadZeroed(1);
    var sizeOfKey := stream.ReadZeroed(1);
    var keyBytes := stream.Read(sizeOfKey[0]);
    if |keyBytes| > 8 {
      return Undefined;
    }
    var key := Word(Overlay(Zeros(8), keyBytes));
    var numBytes := stream.ReadZeroed(8);
    var value := stream.ReadZeroed(Word(numBytes));
    var sizeOfChecksum := stream.ReadZeroed(1);
    var sumBytes := stream.Read(sizeOfChecksum[0]);
    if |sumBytes| > 16 {
      return Undefined;
    }
    var sum := Overlay(Zeros(16), sumBytes);
    d := Decoded(Row(key, value, op[0], UInt128(Word(sum[..8]), Word(sum[8..]))),
                 Cursor(stream.data, stream.pos, stream.eof, stream.fail));
  }

  /** The string overload of `deserialize`. */
  method DeserializeData(data: seq<byte>) returns (d: DecodeResult)
    ensures d == Deserialize(Open(data))
  {
    var stream := new InStream(data);
    d := DeserializeFrom(stream);
  }

  lemma WordOf(n: nat)
    requires n < TWO64
    ensures Word(ToLE(n, 8)) == n
  {
    PowValues();
    LittleEndianRoundTrip(n, 8);
  }

  lemma SerializeFields(r: Row)
    ensures var s, n := Serialize(r), |r.value|;
            && s[..1] == [r.op] && s[1..2] == [8] && s[2..10] == ToLE(r.key, 8)
            && s[10..18] == ToLE(n, 8) && s[18..18 + n] == r.value && s[18 + n..19 + n] == [16]
            && s[19 + n..35 + n] == ToLE(r.checksum.first, 8) + ToLE(r.checksum.second, 8)
  {
  }

  lemma SubSlice(data: seq<byte>, p: nat, n: nat, a: nat, b: nat)
    requires p + n <= |data| && a <= b <= n
    ensures data[p..p + n][a..b] == data[p + a..p + b]
  {
    var l, r := data[p..p + n][a..b], data[p + a..p + b];
    forall i | 0 <= i < b - a ensures l[i] == r[i] {
      assert l[i] == data[p..p + n][a + i];
      assert data[p..p + n][a + i] == data[p + (a + i)];
    }
    assert l == r;
  }

  lemma Slice(c: Cursor, s: seq<byte>, a: nat, b: nat)
    requires c.Valid() && c.Good() && c.pos + |s| <= |c.data|
    requires c.data[c.pos..c.pos + |s|] == s && a <= b <= |s|
    ensures var at := Cursor(c.data, c.pos + a, false, false);
            at.Got(b - a) == at.Take(b - a) == s[a..b]
            && at.Skip(b - a) == Cursor(c.data, c.pos + b, false, false)
  {
    SubSlice(c.data, c.pos, |s|, a, b);
  }

  lemma ChecksumOf(sum: UInt128)
    ensures var got := ToLE(sum.first, 8) + ToLE(sum.second, 8);
            var b := Overlay(Zeros(16), got);
            |got| == 16 && UInt128(Word(b[..8]), Word(b[8..])) == sum
  {
    var got := ToLE(sum.first, 8) + ToLE(sum.second, 8);
    OverlayAll(Zeros(16), got);
    assert got[..8] == ToLE(sum.first, 8) && got[8..] == ToLE(sum.second, 8);
    WordOf(sum.first);
    WordOf(sum.second);
  }

  /** A row is read back exactly wherever its bytes start, whatever precedes and
      follows them and whatever its value holds. */
  lemma RowRoundTrip(c: Cursor, r: Row)
    requires c.Valid() && c.Good() && c.pos + |Serialize(r)| <= |c.data|
    requires c.data[c.pos..c.pos + |Serialize(r)|] == Serialize(r)
    ensures Deserialize(c) == Decoded(r, Cursor(c.data, c.pos + |Serialize(r)|, false, false))
  {
    hide Serialize, Cursor.Got, Cursor.Take, Cursor.Skip, Word, FromLE, ToLE, Overlay;
    var s, n := Serialize(r), |r.value|;
    SerializeFields(r);
    Slice(c, s, 0, 1);
    Slice(c, s, 1, 2);
    Slice(c, s, 2, 10);
    Slice(c, s, 10, 18);
    Slice(c, s, 18, 18 + n);
    Slice(c, s, 18 + n, 19 + n);
    Slice(c, s, 19 + n, 35 + n);
    WordOf(n);
    WordOf(r.key);
    OverlayAll(Zeros(8), ToLE(r.key, 8));
    ChecksumOf(r.checksum);
  }

  // ----- The format, byte by byte -----

  /** Where every byte of a record stands. */
  lemma RecordBytes(r: Row)
    ensures var s, n := Serialize(r), |r.value|;
            && s[0] == r.op && s[1] == 8
            && (forall i | 0 <= i < 8 :: s[2 + i] == r.key / Pow256(i) % 256)
            && (forall i | 0 <= i < 8 :: s[10 + i] == n / Pow256(i) % 256)
            && (forall i | 0 <= i < n :: s[18 + i] == r.value[i])
            && s[18 + n] == 16
            && (forall i | 0 <= i < 8 :: s[19 + n + i] == r.checksum.first / Pow256(i) % 256)
            && (forall i | 0 <= i < 8 :: s[27 + n + i] == r.checksum.second / Pow256(i) % 256)
  {
    hide Serialize, ToLE, Pow256;
    var s, n := Serialize(r), |r.value|;
    SerializeFields(r);
    var sums := ToLE(r.checksum.first, 8) + ToLE(r.checksum.second, 8);
    assert s[0] == s[..1][0] && s[1] == s[1..2][0] && s[18 + n] == s[18 + n..19 + n][0];
    forall i | 0 <= i < 8
      ensures s[2 + i] == r.key / Pow256(i) % 256 && s[10 + i] == n / Pow256(i) % 256
      ensures s[19 + n + i] == r.checksum.first / Pow256(i) % 256
      ensures s[27 + n + i] == r.checksum.second / Pow256(i) % 256
    {
      DigitAt(r.key, 8, i);
      DigitAt(n, 8, i);
      DigitAt(r.checksum.first, 8, i);
      DigitAt(r.checksum.second, 8, i);
      assert s[2 + i] == s[2..10][i] && s[10 + i] == s[10..18][i];
      assert s[19 + n + i] == s[19 + n..35 + n][i] == sums[i];
      assert s[27 + n + i] == s[19 + n..35 + n][8 + i] == sums[8 + i];
    }
    forall i | 0 <= i < n ensures s[18 + i] == r.value[i] {
      assert s[18 + i] == s[18..18 + n][i];
    }
  }

  /** A record's first byte tells a tombstone: 1 is one, every other byte is not. */
  lemma FirstByteDecides(c: Cursor)
    requires c.Valid() && Deserialize(c).Decoded?
    ensures c.pos < |c.data| && Deserialize(c).row.op == c.data[c.pos]
    ensures !Deserialize(c).row.Live() <==> c.data[c.pos] == 1
  {
    hide Word;
  }

  /** A byte past the end counts as zero, which is what the loaders' locals start as. */
  function ByteAt(data: seq<byte>, p: nat): byte {
    if p < |data| then data[p] else 0
  }

  function BytesAt(data: seq<byte>, p: nat, n: nat): (b: seq<byte>)
    ensures |b| == n
    ensures forall i | 0 <= i < n :: b[i] == ByteAt(data, p + i)
  {
    seq<byte>(n, i requires 0 <= i < n => ByteAt(data, p + i))
  }

  /** `size` bytes read into `n` zeroed ones. */
  function SizedAt(data: seq<byte>, p: nat, size: nat, n: nat): (b: seq<byte>)
    ensures |b| == n
    ensures forall i | 0 <= i < n :: b[i] == if i < size then ByteAt(data, p + i) else 0
  {
    if size < n then BytesAt(data, p, size) + Zeros(n - size) else BytesAt(data, p, n)
  }

  /** The places of a record at `p`, whatever its bytes: its length field, its
      checksum's size byte, its end. */
  function LengthAt(data: seq<byte>, p: nat): nat {
    p + 2 + ByteAt(data, p + 1)
  }

  function SumAt(data: seq<byte>, p: nat): nat {
    LengthAt(data, p) + 8 + Word(BytesAt(data, LengthAt(data, p), 8))
  }

  function EndAt(data: seq<byte>, p: nat): nat {
    SumAt(data, p) + 1 + ByteAt(data, SumAt(data, p))
  }

  /** The row that starts at `p`, told byte by byte. */
  function RowAt(data: seq<byte>, p: nat): Row {
    var sum := SizedAt(data, SumAt(data, p) + 1, ByteAt(data, SumAt(data, p)), 16);
    Row(Word(SizedAt(data, p + 2, ByteAt(data, p + 1), 8)),
        BytesAt(data, LengthAt(data, p) + 8, Word(BytesAt(data, LengthAt(data, p), 8))),
        ByteAt(data, p), UInt128(Word(sum[..8]), Word(sum[8..])))
  }

  /** The stream stands at `p`, or has failed because `p` is past its end. */
  predicate StandsAt(c: Cursor, p: nat) {
    if p <= |c.data| then c.Good() && c.pos == p else !c.Good() && c.pos == |c.data|
  }

  lemma ReadsAt(c: Cursor, p: nat, n: nat)
    requires c.Valid() && StandsAt(c, p)
    ensures c.Take(n) == BytesAt(c.data, p, n) && StandsAt(c.Skip(n), p + n)
    ensures |c.Got(n)| == if p + n <= |c.data| then n else if p <= |c.data| then |c.data| - p else 0
    ensures forall m | m >= |c.Got(n)| :: Overlay(Zeros(m), c.Got(n)) == SizedAt(c.data, p, n, m)
  {
    var b := BytesAt(c.data, p, n);
    forall i | 0 <= i < n ensures c.Take(n)[i] == b[i] {
    }
    forall m | m >= |c.Got(n)| ensures Overlay(Zeros(m), c.Got(n)) == SizedAt(c.data, p, n, m) {
      var r := SizedAt(c.data, p, n, m);
      forall i | 0 <= i < m ensures Overlay(Zeros(m), c.Got(n))[i] == r[i] {
      }
    }
  }

  /** A read of `size` bytes at `p` that runs over a target of `n` bytes. */
  predicate Overruns(data: seq<byte>, p: nat, size: nat, n: nat) {
    size > n && p + n < |data|
  }

  lemma ChecksumExactly(op: byte, key: u64, value: Data, c: Cursor, p: nat)
    requires c.Valid() && StandsAt(c, p)
    ensures var d, size := DecodeChecksum(op, key, value, c), ByteAt(c.data, p);
            if Overruns(c.data, p + 1, size, 16) then d.Undefined?
            else
              var sum := SizedAt(c.data, p + 1, size, 16);
              d.Decoded? && d.row == Row(key, value, op, UInt128(Word(sum[..8]), Word(sum[8..])))
              && StandsAt(d.rest, p + 1 + size)
  {
    hide Word, Cursor.Take, Cursor.Got, Cursor.Skip, Overlay, StandsAt;
    ReadsAt(c, p, 1);
    ReadsAt(c.Skip(1), p + 1, c.Take(1)[0]);
  }

  lemma ValueExactly(op: byte, key: u64, c: Cursor, p: nat)
    requires c.Valid() && StandsAt(c, p)
    ensures var n := Word(BytesAt(c.data, p, 8));
            DecodeValue(op, key, c) == DecodeChecksum(op, key, BytesAt(c.data, p + 8, n), c.Skip(8).Skip(n))
            && StandsAt(c.Skip(8).Skip(n), p + 8 + n)
  {
    hide Word, Cursor.Take, Cursor.Got, Cursor.Skip, Overlay, StandsAt, DecodeChecksum;
    ReadsAt(c, p, 8);
    ReadsAt(c.Skip(8), p + 8, Word(c.Take(8)));
  }

  lemma KeyExactly(op: byte, c: Cursor, p: nat)
    requires c.Valid() && StandsAt(c, p)
    ensures var size := ByteAt(c.data, p);
            if Overruns(c.data, p + 1, size, 8) then DecodeKey(op, c).Undefined?
            else
              var next := c.Skip(1).Skip(size);
              DecodeKey(op, c) == DecodeValue(op, Word(SizedAt(c.data, p + 1, size, 8)), next)
              && StandsAt(next, p + 1 + size)
  {
    hide Word, Cursor.Take, Cursor.Got, Cursor.Skip, Overlay, StandsAt, DecodeValue;
    ReadsAt(c, p, 1);
    ReadsAt(c.Skip(1), p + 1, c.Take(1)[0]);
  }

  /** Decoding arbitrary bytes: undefined exactly when the key or the checksum runs
      over its target, and otherwise the row that stands there. */
  lemma DecodeExactly(c: Cursor)
    requires c.Valid() && c.Good() && c.pos < |c.data|
    ensures Deserialize(c).Undefined? <==>
              || Overruns(c.data, c.pos + 2, ByteAt(c.data, c.pos + 1), 8)
              || Overruns(c.data, SumAt(c.data, c.pos) + 1, ByteAt(c.data, SumAt(c.data, c.pos)), 16)
    ensures Deserialize(c).Decoded? ==>
              Deserialize(c).row == RowAt(c.data, c.pos)
              && StandsAt(Deserialize(c).rest, EndAt(c.data, c.pos))
  {
    hide Word, Cursor.Take, Cursor.Got, Cursor.Skip, StandsAt, DecodeKey, DecodeValue, DecodeChecksum, Overruns;
    var data, p := c.data, c.pos;
    Stands(c);
    ReadsAt(c, p, 1);
    var op, c1, size := c.Take(1)[0], c.Skip(1), ByteAt(data, p + 1);
    KeyExactly(op, c1, p + 1);
    if !Overruns(data, p + 2, size, 8) {
      var key, c2 := Word(SizedAt(data, p + 2, size, 8)), c1.Skip(1).Skip(size);
      var n := Word(BytesAt(data, LengthAt(data, p), 8));
      ValueExactly(op, key, c2, LengthAt(data, p));
      ChecksumExactly(op, key, BytesAt(data, LengthAt(data, p) + 8, n), c2.Skip(8).Skip(n), SumAt(data, p));
    }
  }

  lemma Stands(c: Cursor)
    requires c.Valid() && c.Good()
    ensures StandsAt(c, c.pos)
  {
  }

  // ----- Streams of rows -----

  /** The `while (!eof)` loop over a stream of rows: decode, keep, peek. */
  function LoadRows(c: Cursor): (l: LoadResult)
    requires c.Valid() && c.Good()
    decreases |c.data| - c.pos
  {
    match Deserialize(c)
    case Undefined => LoadUndefined
    case Decoded(row, rest) =>
      var next := rest.Peek();
      if next.eof then Loaded([row])
      else
        match LoadRows(next)
        case LoadUndefined => LoadUndefined
        case Loaded(rows) => Loaded([row] + rows)
  }

  function Prefixed(read: seq<Row>, l: LoadResult): LoadResult {
    if l.Loaded? then Loaded(read + l.rows) else l
  }

  lemma PrefixedTwice(a: seq<Row>, b: seq<Row>, l: LoadResult)
    ensures Prefixed(a, Prefixed(b, l)) == Prefixed(a + b, l)
  {
    if l.Loaded? {
      assert a + (b + l.rows) == a + b + l.rows;
    }
  }

  lemma Associative(x: seq<byte>, y: seq<byte>, z: seq<byte>)
    ensures x + (y + z) == (x + y) + z
  {
  }

  lemma {:induction false} SerializeAllConcat(a: seq<Row>, b: seq<Row>)
    ensures SerializeAll(a + b) == SerializeAll(a) + SerializeAll(b)
  {
    hide Serialize, TotalSize;
    if a == [] {
      assert a + b == b;
    } else {
      assert (a + b)[1..] == a[1..] + b;
      SerializeAllConcat(a[1..], b);
      Associative(Serialize(a[0]), SerializeAll(a[1..]), SerializeAll(b));
    }
  }

  lemma {:induction false} TotalSizeConcat(a: seq<Row>, b: seq<Row>)
    ensures TotalSize(a + b) == TotalSize(a) + TotalSize(b)
  {
    if a == [] {
      assert a + b == b;
    } else {
      TotalSizeConcat(a[1..], b);
      assert (a + b)[1..] == a[1..] + b;
    }
  }

  /** The i-th row's bytes lie right behind the bytes of the rows before it. */
  lemma {:induction false} SerializedSlice(rows: seq<Row>, i: nat)
    requires i < |rows|
    ensures var at := TotalSize(rows[..i]);
            at + RowSize(rows[i]) <= TotalSize(rows)
            && SerializeAll(rows)[at..at + RowSize(rows[i])] == Serialize(rows[i])
  {
    hide Serialize;
    var before, rest := rows[..i], rows[i..];
    assert rows == before + rest;
    TotalSizeConcat(before, rest);
    SerializeAllConcat(before, rest);
    assert SerializeAll(rest) == Serialize(rows[i]) + SerializeAll(rest[1..]);
  }

  lemma {:induction false} LoadRowsFrom(c: Cursor, rows: seq<Row>)
    requires c.Valid() && c.Good() && rows != []
    requires c.data[c.pos..] == SerializeAll(rows)
    ensures LoadRows(c) == Loaded(rows)
    decreases rows
  {
    hide Serialize, Deserialize;
    var s, tail := Serialize(rows[0]), SerializeAll(rows[1..]);
    assert c.data[c.pos..] == s + tail;
    assert c.data[c.pos..c.pos + |s|] == s by {
      assert c.data[c.pos..][..|s|] == s;
    }
    RowRoundTrip(c, rows[0]);
    var next := Cursor(c.data, c.pos + |s|, false, false);
    assert c.data[next.pos..] == tail by {
      assert c.data[c.pos..][|s|..] == tail;
    }
    if rows[1..] == [] {
      assert rows == [rows[0]];
    } else {
      LoadRowsFrom(next, rows[1..]);
    }
  }

  /** Every non-empty row sequence survives the stream: same rows, same order. */
  lemma StreamRoundTrip(rows: seq<Row>)
    requires rows != []
    ensures LoadRows(Open(SerializeAll(rows))) == Loaded(rows)
  {
    hide Serialize, Deserialize;
    LoadRowsFrom(Open(SerializeAll(rows)), rows);
  }

  /** The hypothesis is tight: on an empty stream the loop still decodes once. */
  lemma EmptyStreamIsUndefined()
    ensures LoadRows(Open(SerializeAll([]))) == LoadUndefined
  {
  }

  /** Encoded row sequences are uniquely decodable. */
  lemma SerializeAllInjective(a: seq<Row>, b: seq<Row>)
    requires SerializeAll(a) == SerializeAll(b)
    ensures a == b
  {
    hide Serialize, Deserialize;
    if a != [] && b != [] {
      StreamRoundTrip(a);
      StreamRoundTrip(b);
    }
  }

  // ----- A torn last record -----

  lemma LoadRowsStep(c: Cursor, row: Row, len: nat)
    requires c.Valid() && c.Good() && c.pos + len < |c.data|
    requires Deserialize(c) == Decoded(row, Cursor(c.data, c.pos + len, false, false))
    ensures LoadRows(c) == Prefixed([row], LoadRows(Cursor(c.data, c.pos + len, false, false)))
  {
    hide Deserialize;
  }

  lemma {:induction false} LoadRowsThen(c: Cursor, rows: seq<Row>, tail: seq<byte>)
    requires c.Valid() && c.Good() && tail != [] && c.data[c.pos..] == SerializeAll(rows) + tail
    ensures c.pos + TotalSize(rows) < |c.data|
    ensures LoadRows(c) == Prefixed(rows, LoadRows(Cursor(c.data, c.pos + TotalSize(rows), false, false)))
    decreases rows
  {
    hide Serialize, Deserialize, LoadRows;
    if rows != [] {
      var s, rest := Serialize(rows[0]), SerializeAll(rows[1..]);
      Associative(s, rest, tail);
      assert c.data[c.pos..c.pos + |s|] == c.data[c.pos..][..|s|] == s;
      RowRoundTrip(c, rows[0]);
      var next := Cursor(c.data, c.pos + |s|, false, false);
      assert next.data[next.pos..] == c.data[c.pos..][|s|..] == rest + tail;
      LoadRowsStep(c, rows[0], |s|);
      LoadRowsThen(next, rows[1..], tail);
      PrefixedTwice([rows[0]], rows[1..], LoadRows(Cursor(c.data, c.pos + TotalSize(rows), false, false)));
    }
  }

  /** The bytes of the first `n` of a record, seen from where it starts. */
  lemma TornBytes(data: seq<byte>, p: nat, r: Row, n: nat)
    requires 0 < n < |Serialize(r)| && p + n == |data| && data[p..] == Serialize(r)[..n]
    ensures forall i | 0 <= i < n :: ByteAt(data, p + i) == Serialize(r)[i]
  {
    hide Serialize;
    forall i | 0 <= i < n ensures ByteAt(data, p + i) == Serialize(r)[i] {
      assert data[p..][i] == Serialize(r)[..n][i];
    }
  }

  /** A cut record still decodes, and its decoding reaches the end of the stream. */
  lemma TornDecodes(c: Cursor, r: Row, n: nat)
    requires c.Valid() && c.Good() && 0 < n < |Serialize(r)|
    requires c.pos + n == |c.data| && c.data[c.pos..] == Serialize(r)[..n]
    ensures Deserialize(c).Decoded? && Deserialize(c).row == RowAt(c.data, c.pos)
    ensures Deserialize(c).rest.Peek().eof
  {
    hide Serialize, Deserialize, RowAt, Word;
    var data, p := c.data, c.pos;
    TornBytes(data, p, r, n);
    RecordBytes(r);
    DecodeExactly(c);
    if n >= 18 {
      TornLength(data, p, r, n);
    }
  }

  lemma TornLength(data: seq<byte>, p: nat, r: Row, n: nat)
    requires 18 <= n < |Serialize(r)| && p + n == |data| && data[p..] == Serialize(r)[..n]
    ensures ByteAt(data, p + 1) == 8 && Word(BytesAt(data, p + 10, 8)) == |r.value|
  {
    hide Serialize, Word;
    TornBytes(data, p, r, n);
    SerializeFields(r);
    RecordBytes(r);
    var b := BytesAt(data, p + 10, 8);
    forall i | 0 <= i < 8 ensures b[i] == ToLE(|r.value|, 8)[i] {
      assert b[i] == ByteAt(data, p + (10 + i)) == Serialize(r)[10 + i] == Serialize(r)[10..18][i];
    }
    assert b == ToLE(|r.value|, 8);
    WordOf(|r.value|);
  }

  /** A log whose last record was cut replays all whole records and then a row made
      of what is there, with zeros for what is missing. */
  lemma TornRecordReplays(rows: seq<Row>, r: Row, n: nat)
    requires 0 < n < |Serialize(r)|
    ensures var file := SerializeAll(rows) + Serialize(r)[..n];
            LoadRows(Open(file)) == Loaded(rows + [RowAt(file, TotalSize(rows))])
  {
    hide Serialize, Deserialize, RowAt;
    var tail := Serialize(r)[..n];
    var file := SerializeAll(rows) + tail;
    var c := Cursor(file, TotalSize(rows), false, false);
    assert file[TotalSize(rows)..] == tail;
    LoadRowsThen(Open(file), rows, tail);
    TornDecodes(c, r, n);
  }

  /** Such a row is of the same kind, and has its own key and value as soon as they
      had been written whole. */
  lemma TornRowKeeps(data: seq<byte>, p: nat, r: Row, n: nat)
    requires 0 < n < |Serialize(r)| && p + n == |data| && data[p..] == Serialize(r)[..n]
    ensures RowAt(data, p).op == r.op
    ensures n >= 10 ==> RowAt(data, p).key == r.key
    ensures n >= 18 + |r.value| ==> RowAt(data, p).value == r.value
  {
    hide Serialize, Word;
    TornBytes(data, p, r, n);
    RecordBytes(r);
    SerializeFields(r);
    if n >= 10 {
      var b := SizedAt(data, p + 2, ByteAt(data, p + 1), 8);
      forall i | 0 <= i < 8 ensures b[i] == ToLE(r.key, 8)[i] {
        assert b[i] == ByteAt(data, p + (2 + i)) == Serialize(r)[2 + i] == Serialize(r)[2..10][i];
      }
      assert b == ToLE(r.key, 8);
      WordOf(r.key);
    }
    if n >= 18 + |r.value| {
      TornLength(data, p, r, n);
      var v := BytesAt(data, p + 18, |r.value|);
      forall i | 0 <= i < |v| ensures v[i] == r.value[i] {
        assert v[i] == ByteAt(data, p + (18 + i));
      }
      assert v == r.value;
    }
  }
}
