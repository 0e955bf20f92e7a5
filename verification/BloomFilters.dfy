/** The Bloom filter over keys; the hash of a key is a parameter. */
module BloomFilters {
  import opened Bytes
  import opened Rows

  /** A filter's shape: its key hash, its number of cells, its number of probes. */
  datatype Shape = Shape(hash: u64 -> UInt128, cells: nat, probes: byte) {

    predicate Valid() {
      cells > 0
    }

    /** `rehash`: 64-bit wrap-around arithmetic, then modulo the number of cells. */
    function Probe(k: u64, i: byte): (p: nat)
      requires Valid()
      ensures p < cells
    {
      (hash(k).first + i * hash(k).second) % TWO64 % cells
    }

    predicate Probed(k: u64, cell: nat)
      requires Valid()
    {
      exists i: byte | 0 <= i < probes :: Probe(k, i) == cell
    }
  }

  /** The cells of a hash value, probe by probe. */
  function Positions(h: UInt128, probes: byte, cells: nat): (r: seq<nat>)
    requires cells > 0
    ensures |r| == probes
    ensures forall i | 0 <= i < |r| :: r[i] == (h.first + i * h.second) % TWO64 % cells
  {
    seq(probes, i => (h.first + i * h.second) % TWO64 % cells)
  }

  /** The probes of a key go to the positions of its hash. */
  lemma ProbedIs(s: Shape, k: u64, cell: nat)
    requires s.Valid()
    ensures s.Probed(k, cell) <==> cell in Positions(s.hash(k), s.probes, s.cells)
    ensures forall i: byte | 0 <= i < s.probes :: s.Probe(k, i) == Positions(s.hash(k), s.probes, s.cells)[i]
  {
    var r := Positions(s.hash(k), s.probes, s.cells);
    forall i: byte | 0 <= i < s.probes ensures s.Probe(k, i) == r[i] {
    }
    if cell in r {
      var i :| 0 <= i < |r| && r[i] == cell;
      assert s.Probe(k, i) == cell;
    }
  }

  function Empty(s: Shape): (bits: seq<byte>)
    ensures |bits| == s.cells
  {
    Zeros(s.cells)
  }

  /** The cells after probes `i` and up of key `k` have been set. */
  function SetFrom(s: Shape, bits: seq<byte>, k: u64, i: nat): (r: seq<byte>)
    requires s.Valid() && |bits| == s.cells && i <= s.probes
    ensures |r| == |bits|
    decreases s.probes - i
  {
    if i == s.probes then bits else SetFrom(s, bits[s.Probe(k, i) := 1], k, i + 1)
  }

  function Add(s: Shape, bits: seq<byte>, k: u64): (r: seq<byte>)
    requires s.Valid() && |bits| == s.cells
    ensures |r| == |bits|
  {
    SetFrom(s, bits, k, 0)
  }

  function AddRows(s: Shape, bits: seq<byte>, rows: seq<Row>): (r: seq<byte>)
    requires s.Valid() && |bits| == s.cells
    ensures |r| == |bits|
    decreases rows
  {
    if rows == [] then bits else AddRows(s, Add(s, bits, rows[0].key), rows[1..])
  }

  predicate ProbablyContains(s: Shape, bits: seq<byte>, k: u64)
    requires s.Valid() && |bits| == s.cells
  {
    forall i: byte | 0 <= i < s.probes :: bits[s.Probe(k, i)] != 0
  }

  /** `load`: a read over the cells, which a short file overwrites in part. */
  function LoadBits(bits: seq<byte>, file: seq<byte>): (r: seq<byte>)
    ensures |r| == |bits|
  {
    if |file| <= |bits| then file + bits[|file|..] else file[..|bits|]
  }

  /** The cells after the first `i` probes of key `k` have been set. */
  function SetTo(s: Shape, bits: seq<byte>, k: u64, i: nat): (r: seq<byte>)
    requires s.Valid() && |bits| == s.cells && i <= s.probes
    ensures |r| == |bits|
  {
    if i == 0 then bits else SetTo(s, bits, k, i - 1)[s.Probe(k, i - 1) := 1]
  }

  /** Setting cell after cell from the front is what the loop over all probes does. */
  lemma {:induction false} SetToThenFrom(s: Shape, bits: seq<byte>, k: u64, i: nat)
    requires s.Valid() && |bits| == s.cells && i <= s.probes
    ensures SetFrom(s, SetTo(s, bits, k, i), k, i) == Add(s, bits, k)
  {
    if i > 0 {
      SetToThenFrom(s, bits, k, i - 1);
    }
  }

  lemma {:induction false} AddRowsConcat(s: Shape, bits: seq<byte>, a: seq<Row>, b: seq<Row>)
    requires s.Valid() && |bits| == s.cells
    ensures AddRows(s, bits, a + b) == AddRows(s, AddRows(s, bits, a), b)
    decreases a
  {
    if a == [] {
      assert a + b == b;
    } else {
      AddRowsConcat(s, Add(s, bits, a[0].key), a[1..], b);
      assert (a + b)[1..] == a[1..] + b;
    }
  }

  // ----- Exactness -----

  lemma {:induction false} SetFromExact(s: Shape, bits: seq<byte>, k: u64, i: nat, cell: nat)
    requires s.Valid() && |bits| == s.cells && i <= s.probes && cell < s.cells
    ensures SetFrom(s, bits, k, i)[cell]
         == if exists j: byte | i <= j < s.probes :: s.Probe(k, j) == cell then 1 else bits[cell]
    decreases s.probes - i
  {
    if i < s.probes {
      SetFromExact(s, bits[s.Probe(k, i) := 1], k, i + 1, cell);
      if s.Probe(k, i) == cell {
        assert i <= i < s.probes;
      }
    }
  }

  /** After any sequence of adds a cell is 1 exactly when some added key probes
      it, and otherwise it is what it was. */
  lemma AddRowsExact(s: Shape, bits: seq<byte>, rows: seq<Row>, cell: nat)
    requires s.Valid() && |bits| == s.cells && cell < s.cells
    ensures AddRows(s, bits, rows)[cell]
         == if exists n | 0 <= n < |rows| :: cell in Positions(s.hash(rows[n].key), s.probes, s.cells)
            then 1 else bits[cell]
  {
    AddRowsProbed(s, bits, rows, cell);
    forall n | 0 <= n < |rows|
      ensures s.Probed(rows[n].key, cell) <==> cell in Positions(s.hash(rows[n].key), s.probes, s.cells)
    {
      ProbedIs(s, rows[n].key, cell);
    }
  }

  lemma {:induction false} AddRowsProbed(s: Shape, bits: seq<byte>, rows: seq<Row>, cell: nat)
    requires s.Valid() && |bits| == s.cells && cell < s.cells
    ensures AddRows(s, bits, rows)[cell]
         == if exists n | 0 <= n < |rows| :: s.Probed(rows[n].key, cell) then 1 else bits[cell]
    decreases rows
  {
    if rows != [] {
      var bits' := Add(s, bits, rows[0].key);
      SetFromExact(s, bits, rows[0].key, 0, cell);
      assert bits'[cell] == if s.Probed(rows[0].key, cell) then 1 else bits[cell];
      AddRowsProbed(s, bits', rows[1..], cell);
      if n :| 0 <= n < |rows| && s.Probed(rows[n].key, cell) {
        if n > 0 {
          assert rows[1..][n - 1] == rows[n];
        }
      }
    }
  }

  /** No false negatives, and a positive stays positive. */
  lemma AddRowsContains(s: Shape, bits: seq<byte>, rows: seq<Row>, k: u64)
    requires s.Valid() && |bits| == s.cells
    requires (exists n | 0 <= n < |rows| :: rows[n].key == k) || ProbablyContains(s, bits, k)
    ensures ProbablyContains(s, AddRows(s, bits, rows), k)
  {
    forall i: byte | 0 <= i < s.probes ensures AddRows(s, bits, rows)[s.Probe(k, i)] != 0 {
      AddRowsProbed(s, bits, rows, s.Probe(k, i));
      if n :| 0 <= n < |rows| && rows[n].key == k {
        assert s.Probed(rows[n].key, s.Probe(k, i));
      }
    }
  }

  /** Every cell of a loaded filter comes from the file, as far as that goes. */
  lemma LoadBitsAt(bits: seq<byte>, file: seq<byte>, cell: nat)
    requires cell < |bits|
    ensures LoadBits(bits, file)[cell] == if cell < |file| then file[cell] else bits[cell]
  {
  }

  /** A dump of the right size replaces every cell. */
  lemma DumpLoad(bits: seq<byte>, file: seq<byte>)
    requires |file| == |bits|
    ensures LoadBits(bits, file) == file
  {
  }

  /** A filter's life: keys are added, and now and then it is dumped and loaded
      into a new filter. */
  datatype FilterOp = AddOp(key: u64) | ReloadOp

  function Lived(s: Shape, ops: seq<FilterOp>): (bits: seq<byte>)
    requires s.Valid()
    ensures |bits| == s.cells
  {
    if ops == [] then Empty(s)
    else
      var bits, last := Lived(s, ops[..|ops| - 1]), ops[|ops| - 1];
      if last.AddOp? then Add(s, bits, last.key) else LoadBits(Empty(s), bits)
  }

  /** The set cells are exactly the positions of the added keys' hashes. */
  lemma LivedExact(s: Shape, ops: seq<FilterOp>, cell: nat)
    requires s.Valid() && cell < s.cells
    ensures Lived(s, ops)[cell]
         == if exists i | 0 <= i < |ops| ::
                 ops[i].AddOp? && cell in Positions(s.hash(ops[i].key), s.probes, s.cells)
            then 1 else 0
  {
    LivedProbed(s, ops, cell);
    forall i | 0 <= i < |ops| && ops[i].AddOp?
      ensures s.Probed(ops[i].key, cell) <==> cell in Positions(s.hash(ops[i].key), s.probes, s.cells)
    {
      ProbedIs(s, ops[i].key, cell);
    }
  }

  lemma {:induction false} LivedProbed(s: Shape, ops: seq<FilterOp>, cell: nat)
    requires s.Valid() && cell < s.cells
    ensures Lived(s, ops)[cell]
         == if exists i | 0 <= i < |ops| :: ops[i].AddOp? && s.Probed(ops[i].key, cell) then 1 else 0
  {
    if ops != [] {
      var n := |ops| - 1;
      LivedProbed(s, ops[..n], cell);
      assert forall i | 0 <= i < n :: ops[..n][i] == ops[i];
      if ops[n].AddOp? {
        SetFromExact(s, Lived(s, ops[..n]), ops[n].key, 0, cell);
      }
    }
  }

  /** So an added key is always found again. */
  lemma NoFalseNegative(s: Shape, ops: seq<FilterOp>, i: nat)
    requires s.Valid() && i < |ops| && ops[i].AddOp?
    ensures ProbablyContains(s, Lived(s, ops), ops[i].key)
  {
    forall j: byte | 0 <= j < s.probes ensures Lived(s, ops)[s.Probe(ops[i].key, j)] != 0 {
      LivedProbed(s, ops, s.Probe(ops[i].key, j));
      assert s.Probed(ops[i].key, s.Probe(ops[i].key, j));
    }
  }

  lemma AddAt(s: Shape, bits: seq<byte>, k: u64)
    requires s.Valid() && |bits| == s.cells
    ensures forall cell | 0 <= cell < s.cells ::
      Add(s, bits, k)[cell] == if cell in Positions(s.hash(k), s.probes, s.cells) then 1 else bits[cell]
  {
    forall cell | 0 <= cell < s.cells
      ensures Add(s, bits, k)[cell] == if cell in Positions(s.hash(k), s.probes, s.cells) then 1 else bits[cell]
    {
      SetFromExact(s, bits, k, 0, cell);
      ProbedIs(s, k, cell);
    }
  }

  /** A key is refused exactly when one of its positions is clear. */
  lemma ContainsAt(s: Shape, bits: seq<byte>, k: u64)
    requires s.Valid() && |bits| == s.cells
    ensures forall p | p in Positions(s.hash(k), s.probes, s.cells) :: p < |bits|
    ensures ProbablyContains(s, bits, k)
       <==> forall p | p in Positions(s.hash(k), s.probes, s.cells) :: bits[p] != 0
  {
    var r := Positions(s.hash(k), s.probes, s.cells);
    ProbedIs(s, k, 0);
    forall p | p in r ensures exists i: byte | 0 <= i < s.probes :: s.Probe(k, i) == p {
      ProbedIs(s, k, p);
    }
    forall i: byte | 0 <= i < s.probes ensures s.Probe(k, i) in r {
      assert r[i] in r;
    }
  }

  lemma WrapSum(a: nat, b: nat)
    ensures (a + b % TWO64) % TWO64 == (a + b) % TWO64
  {
  }

  // ----- The object -----

  class BloomFilter {
    const shape: Shape
    const bits: array<byte>

    ghost predicate Valid() {
      shape.Valid() && bits.Length == shape.cells
    }

    constructor (shape: Shape)
      requires shape.Valid()
      ensures Valid() && this.shape == shape && fresh(bits) && bits[..] == Empty(shape)
    {
      this.shape := shape;
      bits := new byte[shape.cells](i => 0);
    }

    method Rehash(index: byte, hash: UInt128) returns (cell: nat)
      requires Valid()
      ensures cell == (hash.first + index * hash.second) % TWO64 % shape.cells
    {
      var product: u64 := (index * hash.second) % TWO64;
      WrapSum(hash.first, index * hash.second);
      var sum: u64 := (hash.first + product) % TWO64;
      cell := sum % bits.Length;
    }

    method AddKey(key: u64)
      requires Valid()
      modifies bits
      ensures bits[..] == Add(shape, old(bits[..]), key)
      ensures forall cell | 0 <= cell < bits.Length ::
        bits[cell] == if cell in Positions(shape.hash(key), shape.probes, shape.cells) then 1 else old(bits[cell])
    {
      AddAt(shape, bits[..], key);
      var hashValue := shape.hash(key);
      for i := 0 to shape.probes
        invariant SetFrom(shape, bits[..], key, i) == Add(shape, old(bits[..]), key)
      {
        var index := Rehash(i, hashValue);
        ghost var before := bits[..];
        bits[index] := 1;
        assert bits[..] == before[index := 1];
      }
    }

    method Contains(key: u64) returns (probably: bool)
      requires Valid()
      ensures probably <==> ProbablyContains(shape, bits[..], key)
      ensures probably <==>
        forall p | p in Positions(shape.hash(key), shape.probes, shape.cells) :: bits[..][p] != 0
    {
      ContainsAt(shape, bits[..], key);
      var hashValue := shape.hash(key);
      for i := 0 to shape.probes
        invariant forall j: byte | 0 <= j < i :: bits[..][shape.Probe(key, j)] != 0
      {
        var index := Rehash(i, hashValue);
        if bits[index] == 0 {
          assert bits[..][shape.Probe(key, i)] == 0;
          return false;
        }
      }
      probably := true;
    }

    method Dump() returns (stream: seq<byte>)
      requires Valid()
      ensures stream == bits[..]
    {
      stream := bits[..];
    }

    method Load(stream: seq<byte>)
      requires Valid()
      modifies bits
      ensures bits[..] == LoadBits(old(bits[..]), stream)
    {
      var n := if |stream| <= bits.Length then |stream| else bits.Length;
      forall i | 0 <= i < n {
        bits[i] := stream[i];
      }
      assert bits[..] == LoadBits(old(bits[..]), stream);
    }
  }
}
