/** The default compressor: an eight-byte length in front of an LZ4 block. The
    block format itself is a parameter. */
module Lz4Adapters {
  import opened Wrappers
  import opened Bytes
  import opened Rows
  import opened BloomFilters
  import opened EngineSpec
  import opened EngineFacts
  import opened Models
  import opened Reads
  import opened Refinement

  const INT_MAX := 0x7FFF_FFFF

  /** What a C `int` can count. */
  type Buffer = s: seq<byte> | |s| <= INT_MAX

  /** A size passed where the library takes an `int`. */
  function AsInt(n: nat): int {
    if n % TWO32 <= INT_MAX then n % TWO32 else n % TWO32 - TWO32
  }

  /** `maxInput` is the largest size with a positive compression bound; `None` is a
      result that reports an error. */
  datatype Codec = Codec(maxInput: nat, pack: Buffer -> Option<Buffer>,
                         unpack: (Buffer, nat) -> Option<Buffer>) {

    /** Unpacking a packed block into a buffer of the original size gives it back. */
    ghost predicate Sound() {
      forall s | pack(s).Some? :: unpack(pack(s).value, |s|) == Some(s)
    }
  }

  function Compress(codec: Codec, v: Data): (r: Option<Data>) {
    var n := AsInt(|v|);
    if n < 0 || n > codec.maxInput then None
    else
      var block := codec.pack(v[..n]);
      if block.None? || block.value == [] then None else Some(ToLE(|v|, 8) + block.value)
  }

  /** A result of no bytes counts as a failure. Fewer than eight bytes are read out
      of bounds by the source. */
  function Uncompress(codec: Codec, c: Data): (r: Option<Data>) {
    if |c| < 8 then None
    else
      var n, m := AsInt(Word(c[..8])), AsInt(|c| - 8);
      if n < 0 || m < 0 then None
      else
        var s := codec.unpack(c[8..8 + m], n);
        if s.None? || s.value == [] then None else Some(s.value)
  }

  /** Exactly which values are accepted: those whose size, cut to 32 bits, is a size the
      library takes, and of which it makes a block. */
  lemma AcceptedExactly(codec: Codec, v: Data)
    ensures Compress(codec, v).Some? <==>
              var n := |v| % 0x1_0000_0000;
              n <= 0x7FFF_FFFF && n <= codec.maxInput
              && codec.pack(v[..n]).Some? && codec.pack(v[..n]).value != []
    ensures Compress(codec, v).Some? ==>
              Compress(codec, v).value == ToLE(|v|, 8) + codec.pack(v[..|v| % 0x1_0000_0000]).value
  {
  }

  /** A value of at most 2^31-1 bytes that the library can take is accepted, and a
      larger one up to that size is not. */
  lemma OrdinaryValues(codec: Codec, v: Data)
    requires |v| <= 0x7FFF_FFFF
    ensures |v| <= codec.maxInput && codec.pack(v).Some? && codec.pack(v).value != [] ==>
              Compress(codec, v).Some?
    ensures |v| > codec.maxInput ==> Compress(codec, v).None?
  {
    AcceptedExactly(codec, v);
    assert v[..|v|] == v;
  }

  /** There are such codecs: one that stores its input behind one byte. */
  lemma StoringCodec(maxInput: nat) returns (codec: Codec)
    ensures codec.Sound() && codec.maxInput == maxInput
    ensures forall s: Buffer | |s| < INT_MAX :: codec.pack(s).Some? && codec.pack(s).value != []
  {
    codec := Codec(maxInput, s => if |s| < INT_MAX then Some([0] + s) else None,
                   (b, n) => if b == [] then None else Some(b[1..]));
  }

  /** What comes back of a value that was accepted: as many bytes as the low 32 bits of
      its size say, and an exception if those are none. */
  lemma ReturnsExactly(codec: Codec, v: Data)
    requires codec.Sound() && Compress(codec, v).Some?
    ensures var n := |v| % 0x1_0000_0000;
            Uncompress(codec, Compress(codec, v).value) == if n == 0 then None else Some(v[..n])
  {
    hide ToLE, Word;
    var n, c := AsInt(|v|), Compress(codec, v).value;
    var block := codec.pack(v[..n]).value;
    assert c[..8] == ToLE(|v|, 8) && c[8..] == block && c[8..8 + |block|] == block;
    WordOf(|v|);
    assert |v[..n]| == n;
  }

  /** Uncompressing arbitrary bytes: the stored length, cut to 32 bits, is the room that
      the library is given; a length it cannot take, an error and no bytes all throw. */
  lemma UncompressExactly(codec: Codec, c: Data)
    requires 8 <= |c| <= 0x7FFF_FFFF
    ensures var room := Word(c[..8]) % 0x1_0000_0000;
            Uncompress(codec, c)
            == if room > 0x7FFF_FFFF || codec.unpack(c[8..], room).None?
                  || codec.unpack(c[8..], room).value == [] then None
               else Some(codec.unpack(c[8..], room).value)
  {
    hide Word;
    assert c[8..8 + (|c| - 8)] == c[8..];
  }

  /** A value that was compressed comes back exactly when it is neither empty nor
      longer than an `int` can say. */
  lemma ValueReturns(codec: Codec, v: Data)
    requires codec.Sound() && Compress(codec, v).Some?
    ensures Uncompress(codec, Compress(codec, v).value) == Some(v) <==> 0 < |v| <= INT_MAX
  {
    hide Compress, Uncompress;
    AcceptedExactly(codec, v);
    ReturnsExactly(codec, v);
    CutValue(v);
  }

  /** Cutting a size to 32 bits cuts nothing off exactly the values below 2^32 bytes. */
  lemma CutValue(v: Data)
    ensures |v| < 0x1_0000_0000 ==> |v| % 0x1_0000_0000 == |v| && v[..|v|] == v
    ensures |v| >= 0x1_0000_0000 ==> |v[..|v| % 0x1_0000_0000]| < |v|
  {
  }

  /** The empty value is accepted as soon as its block has a byte, and never comes back. */
  lemma EmptyThrows(codec: Codec)
    requires codec.Sound() && codec.pack([]).Some? && codec.pack([]).value != []
    ensures Compress(codec, []).Some?
    ensures Compress(codec, []).value == ToLE(0, 8) + codec.pack([]).value
    ensures Uncompress(codec, Compress(codec, []).value) == None
  {
    hide Compress, Uncompress, ToLE;
    var v: Data := [];
    assert v[..0] == v;
    AcceptedExactly(codec, v);
    ReturnsExactly(codec, v);
  }

  ghost predicate UsesLz4(env: Env, codec: Codec) {
    codec.Sound() && forall v: Data :: env.compress(v) == Compress(codec, v)
                                       && env.uncompress(v) == Uncompress(codec, v)
  }

  /** Any sound codec makes a default configuration, with any filter and limit. */
  lemma Lz4Configuration(codec: Codec, hash: Data -> UInt128, shape: Shape, limit: nat) returns (env: Env)
    requires codec.Sound() && shape.cells > 0
    ensures env.Valid() && UsesLz4(env, codec) && env.hash == hash && env.shape == shape && env.limit == limit
  {
    hide Compress, Uncompress;
    env := AnyConfiguration(v => Compress(codec, v), v => Uncompress(codec, v), hash, shape, limit);
  }

  /** No value that the compressor accepts is empty or longer than an `int` can say. */
  ghost predicate ValuesCounted(env: Env, ops: seq<Op>) {
    forall i | 0 <= i < |ops| && ops[i].PutOp? :: env.compress(ops[i].value).Some? ==>
      0 < |ops[i].value| <= INT_MAX
  }

  lemma LosslessExactly(env: Env, codec: Codec, ops: seq<Op>)
    requires UsesLz4(env, codec)
    ensures Lossless(env, ops) <==> ValuesCounted(env, ops)
  {
    hide Compress, Uncompress, Codec.Sound;
    forall i | 0 <= i < |ops| && ops[i].PutOp? && env.compress(ops[i].value).Some?
      ensures env.uncompress(env.compress(ops[i].value).value) == Some(ops[i].value)
         <==> 0 < |ops[i].value| <= INT_MAX
    {
      ValueReturns(codec, ops[i].value);
    }
  }

  /** In the default configuration the engine refines the finite map throughout a run
      exactly when every operation was harmless and no stored value was empty or
      too long. */
  lemma DefaultRefinesExactly(env: Env, codec: Codec, ops: seq<Op>)
    requires env.Valid() && UsesLz4(env, codec) && Fits(HistoryOf(env, ops).batches)
    ensures AgreesThroughout(env, ops) <==> HarmlessThroughout(env, ops) && ValuesCounted(env, ops)
  {
    hide UsesLz4, AgreesThroughout, HarmlessThroughout, ValuesCounted, Lossless, Fits, HistoryOf;
    LosslessExactly(env, codec, ops);
    RefinesExactly(env, ops);
  }

  /** In a first session the default put of an ordinary value succeeds, whatever was
      done before, and a get right after it returns the value. Only key 2^64-1 can fall
      to a snapshot that loses it. */
  lemma DefaultPutReturns(env: Env, codec: Codec, before: seq<Op>, k: u64, v: Data)
    requires env.Valid() && UsesLz4(env, codec)
    requires 0 < |v| <= 0x7FFF_FFFF && |v| <= codec.maxInput
    requires codec.pack(v).Some? && codec.pack(v).value != []
    requires Fits(HistoryOf(env, before + [PutOp(k, v)]).batches)
    requires k == 0xFFFF_FFFF_FFFF_FFFF ==> Harmless(env, HistoryOf(env, before), PutOp(k, v))
    ensures Put(env, Run(env, before), k, v) == Done(Run(env, before + [PutOp(k, v)]))
    ensures Get(env, Run(env, before + [PutOp(k, v)]), k) == Found(v)
  {
    hide Compress, Uncompress, Codec.Sound, Put, Get, Run, HistoryOf, Fits, Harmless;
    OrdinaryValues(codec, v);
    ValueReturns(codec, v);
    PutReturns(env, before, k, v);
  }
}
