/** The finite map from keys to values that the engine stands for, built from the
    operations alone, and the rows that the same operations log. */
module Models {
  import opened Wrappers
  import opened Bytes
  import opened Rows
  import opened Records
  import opened EngineSpec
  import opened Reads
  import opened MemTables

  datatype Op = PutOp(key: u64, value: Data) | RemoveOp(key: u64)

  /** A put whose compressor throws changes nothing. */
  function Model(env: Env, ops: seq<Op>): map<u64, Data> {
    if ops == [] then map[]
    else
      var m, op := Model(env, ops[..|ops| - 1]), ops[|ops| - 1];
      match op
      case RemoveOp(k) => m - {k}
      case PutOp(k, v) => if env.compress(v).None? then m else m[k := v]
  }

  function Answer(m: map<u64, Data>, k: u64): GetResult {
    if k in m then Found(m[k]) else NotFound
  }

  // ----- The rows that operations log -----

  function RowOf(env: Env, op: Op): Option<Row> {
    match op
    case RemoveOp(k) => Some(RemoveRow(k))
    case PutOp(k, v) =>
      match env.compress(v)
      case None => None
      case Some(c) => Some(ValueRow(env, k, c))
  }

  function RowsOf(env: Env, ops: seq<Op>): seq<Row> {
    if ops == [] then []
    else
      var before, row := RowsOf(env, ops[..|ops| - 1]), RowOf(env, ops[|ops| - 1]);
      if row.Some? then before + [row.value] else before
  }

  /** The compressor loses nothing on the values that are put. */
  ghost predicate Lossless(env: Env, ops: seq<Op>) {
    forall i | 0 <= i < |ops| && ops[i].PutOp? ::
      env.compress(ops[i].value).Some? ==>
        env.uncompress(env.compress(ops[i].value).value) == Some(ops[i].value)
  }

  lemma NewestAppend(rows: seq<Row>, row: Row, k: u64)
    ensures Newest(rows + [row], k) == if row.key == k then Some(row) else Newest(rows, k)
  {
    assert (rows + [row])[..|rows|] == rows;
  }

  /** The last logged row of a key, checked and uncompressed, is the value that was
      put last: neither the checksum error nor the decompression error occurs. */
  lemma {:induction false} ModelAnswers(env: Env, ops: seq<Op>, k: u64)
    requires Lossless(env, ops)
    ensures Answer(Model(env, ops), k) == DeliverSeen(env, LiveOnly(Newest(RowsOf(env, ops), k)))
  {
    hide Newest;
    if ops == [] {
      NothingNewest(k);
    } else {
      var before, op := ops[..|ops| - 1], ops[|ops| - 1];
      ModelAnswers(env, before, k);
      if op.RemoveOp? {
        NewestAppend(RowsOf(env, before), RemoveRow(op.key), k);
      } else if env.compress(op.value).Some? {
        NewestAppend(RowsOf(env, before), ValueRow(env, op.key, env.compress(op.value).value), k);
      }
    }
  }

  lemma NothingNewest(k: u64)
    ensures Newest([], k) == None
  {
  }

  lemma RowsOfSnoc(env: Env, ops: seq<Op>, op: Op)
    ensures RowsOf(env, ops + [op])
         == if RowOf(env, op).Some? then RowsOf(env, ops) + [RowOf(env, op).value] else RowsOf(env, ops)
  {
    assert (ops + [op])[..|ops|] == ops;
  }

  // ----- One row for every operation -----

  ghost predicate AllStored(env: Env, ops: seq<Op>) {
    forall i | 0 <= i < |ops| && ops[i].PutOp? :: env.compress(ops[i].value).Some?
  }

  /** When no put fails, the first rows are those of the first operations. */
  lemma {:induction false} RowsOfPrefix(env: Env, ops: seq<Op>, d: nat)
    requires AllStored(env, ops) && d <= |ops|
    ensures |RowsOf(env, ops)| == |ops|
    ensures RowsOf(env, ops)[..d] == RowsOf(env, ops[..d])
  {
    if d == |ops| {
      assert ops[..d] == ops;
      if ops != [] {
        RowsOfPrefix(env, ops[..d - 1], d - 1);
      }
    } else {
      var n := |ops| - 1;
      RowsOfPrefix(env, ops[..n], d);
      assert ops[..n][..d] == ops[..d];
    }
  }

  // ----- Rows that only lossless operations log -----

  /** A tombstone, or a sealed value that uncompresses to what was compressed. */
  predicate Genuine(env: Env, row: Row) {
    || row == RemoveRow(row.key)
    || (row == ValueRow(env, row.key, row.value)
        && env.uncompress(row.value).Some?
        && env.compress(env.uncompress(row.value).value) == Some(row.value))
  }

  ghost predicate AllGenuine(env: Env, rows: seq<Row>) {
    forall i | 0 <= i < |rows| :: Genuine(env, rows[i])
  }

  lemma {:induction false} RowsGenuine(env: Env, ops: seq<Op>)
    requires Lossless(env, ops)
    ensures AllGenuine(env, RowsOf(env, ops))
  {
    if ops != [] {
      RowsGenuine(env, ops[..|ops| - 1]);
    }
  }
}
