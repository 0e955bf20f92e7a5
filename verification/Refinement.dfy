/** Sequential refinement: the engine against a finite map from keys to values. */
module Refinement {
  import opened Wrappers
  import opened Bytes
  import opened Rows
  import opened MemTableSpec
  import opened MemTables
  import opened SSTableIndexes
  import opened EngineSpec
  import opened Histories
  import opened Reads
  import opened Coherence
  import opened Models

  // ----- The engine and its history -----

  function Exec(env: Env, s: State, op: Op): (e: Effect)
    requires env.Valid() && |s.bits| == env.shape.cells
    ensures |e.state.bits| == env.shape.cells
  {
    match op
    case PutOp(k, v) => Put(env, s, k, v)
    case RemoveOp(k) => Done(Remove(s, k))
  }

  ghost function Run(env: Env, ops: seq<Op>): (s: State)
    requires env.Valid()
    ensures |s.bits| == env.shape.cells
  {
    if ops == [] then FreshState(env)
    else Exec(env, Run(env, ops[..|ops| - 1]), ops[|ops| - 1]).state
  }

  /** The rows of the next operation and, when the memtable is full, the cut. */
  function Next(env: Env, h: History, op: Op): History {
    match op
    case RemoveOp(k) => h.Append(RemoveRow(k))
    case PutOp(k, v) =>
      match env.compress(v)
      case None => h
      case Some(c) =>
        var h' := h.Append(ValueRow(env, k, c));
        if TotalSize(h'.tail) >= env.limit then h'.Cut() else h'
  }

  function HistoryOf(env: Env, ops: seq<Op>): History {
    if ops == [] then NEW_HISTORY else Next(env, HistoryOf(env, ops[..|ops| - 1]), ops[|ops| - 1])
  }

  lemma ExecNext(env: Env, h: History, op: Op)
    requires env.Valid() && |Next(env, h, op).batches| <= TWO32
    ensures Exec(env, StateOf(env, h), op).state == StateOf(env, Next(env, h, op))
    ensures Exec(env, StateOf(env, h), op).Thrown? <==> op.PutOp? && env.compress(op.value).None?
  {
    hide StateOf, Snapshot;
    if op.RemoveOp? {
      AppendState(env, h, RemoveRow(op.key));
    } else if env.compress(op.value).Some? {
      var row := ValueRow(env, op.key, env.compress(op.value).value);
      var h' := h.Append(row);
      AppendState(env, h, row);
      SizeOfState(env, h');
      if TotalSize(h'.tail) >= env.limit {
        SnapshotState(env, h');
      }
    }
  }

  lemma SizeOfState(env: Env, h: History)
    requires env.Valid()
    ensures StateOf(env, h).mem.size == TotalSize(h.tail)
  {
  }

  lemma {:induction false} RunIsHistory(env: Env, ops: seq<Op>)
    requires env.Valid() && |HistoryOf(env, ops).batches| <= TWO32
    ensures Run(env, ops) == StateOf(env, HistoryOf(env, ops))
  {
    hide StateOf, Exec;
    FreshOpen(env);
    if ops != [] {
      RunIsHistory(env, ops[..|ops| - 1]);
      ExecNext(env, HistoryOf(env, ops[..|ops| - 1]), ops[|ops| - 1]);
    }
  }

  // ----- The map against the log -----

  lemma NextLogged(env: Env, h: History, op: Op)
    ensures Next(env, h, op).Logged()
         == if RowOf(env, op).Some? then h.Logged() + [RowOf(env, op).value] else h.Logged()
  {
    if op.PutOp? && env.compress(op.value).Some? {
      var h' := h.Append(ValueRow(env, op.key, env.compress(op.value).value));
      assert h'.Cut().batches[..|h.batches|] == h.batches;
      assert h'.Cut().Logged() == h'.Logged();
    }
  }

  /** The log holds the rows of the operations, however they were snapshotted. */
  lemma {:induction false} LoggedIs(env: Env, ops: seq<Op>)
    ensures HistoryOf(env, ops).Logged() == RowsOf(env, ops)
  {
    if ops == [] {
      assert NEW_HISTORY.Logged() == [];
    } else {
      LoggedIs(env, ops[..|ops| - 1]);
      NextLogged(env, HistoryOf(env, ops[..|ops| - 1]), ops[|ops| - 1]);
    }
  }

  /** The map answers for a key what its last row in the log says. */
  lemma ModelIsSaid(env: Env, ops: seq<Op>, k: u64)
    requires Lossless(env, ops)
    ensures Answer(Model(env, ops), k) == DeliverSeen(env, Said(HistoryOf(env, ops), k))
  {
    LoggedIs(env, ops);
    ModelAnswers(env, ops, k);
  }

  /** Two genuine live rows of a key that deliver the same are the same. */
  lemma DeliverInjective(env: Env, a: Option<Row>, b: Option<Row>, k: u64)
    requires a.Some? ==> Genuine(env, a.value) && a.value.Live() && a.value.key == k
    requires b.Some? ==> Genuine(env, b.value) && b.value.Live() && b.value.key == k
    requires DeliverSeen(env, a) == DeliverSeen(env, b)
    ensures a == b
  {
  }

  // ----- The condition -----

  /** What a caller can check before the operation: for a remove, that the newest
      row on disk is not a put; for a put that fills the memtable with nothing but
      MAX, that the disk already answers the same for MAX. */
  predicate Harmless(env: Env, h: History, op: Op) {
    match op
    case RemoveOp(k) => LiveOnly(DiskNewest(h.batches, k)).None?
    case PutOp(k, v) =>
      match env.compress(v)
      case None => true
      case Some(c) =>
        var h' := h.Append(ValueRow(env, k, c));
        TotalSize(h'.tail) >= env.limit && SentinelOnly(h'.tail) ==>
          LiveOnly(DiskNewest(h.batches, MAX)) == Some(ValueRow(env, k, c))
  }

  /** One operation keeps reads in step with the log exactly when it is harmless. */
  lemma NextCoherent(env: Env, h: History, op: Op)
    requires Coherent(h)
    ensures Coherent(Next(env, h, op)) <==> Harmless(env, h, op)
  {
    hide TotalSize, DiskNewest, Coherent;
    match op
    case RemoveOp(k) =>
      RemoveCoherent(h, k);
    case PutOp(k, v) =>
      if env.compress(v).Some? {
        var row := ValueRow(env, k, env.compress(v).value);
        var h' := h.Append(row);
        PutCoherent(h, row);
        CutCoherent(h');
        if SentinelOnly(h'.tail) {
          assert h'.tail[|h.tail|] == row;
          AppendReads(h, row, MAX);
        }
      }
  }

  // ----- The theorem -----

  ghost predicate AgreesAt(env: Env, ops: seq<Op>, k: u64)
    requires env.Valid()
  {
    Get(env, Run(env, ops), k) == Answer(Model(env, ops), k)
  }

  /** Every read after every operation of the run agrees with the map. */
  ghost predicate AgreesThroughout(env: Env, ops: seq<Op>)
    requires env.Valid()
  {
    forall n, k | 0 <= n <= |ops| :: AgreesAt(env, ops[..n], k)
  }

  ghost predicate HarmlessThroughout(env: Env, ops: seq<Op>) {
    forall n | 0 <= n < |ops| :: Harmless(env, HistoryOf(env, ops[..n]), ops[n])
  }

  lemma AgreesIsCoherent(env: Env, ops: seq<Op>)
    requires env.Valid() && Lossless(env, ops) && Fits(HistoryOf(env, ops).batches)
    ensures (forall k :: AgreesAt(env, ops, k)) <==> Coherent(HistoryOf(env, ops))
  {
    hide Get, Run, DiskNewest, StateOf, Model, Answer, Fits;
    var h := HistoryOf(env, ops);
    FitsSize(h.batches);
    RunIsHistory(env, ops);
    LoggedIs(env, ops);
    RowsGenuine(env, ops);
    forall k ensures AgreesAt(env, ops, k) <==> Seen(h, k) == Said(h, k) {
      FitsKey(h.batches, k);
      GetMeaning(env, h, k);
      ModelIsSaid(env, ops, k);
      SeenInLog(h, k);
      if AgreesAt(env, ops, k) {
        DeliverInjective(env, Seen(h, k), Said(h, k), k);
      }
    }
  }

  lemma NextBatches(env: Env, h: History, op: Op)
    ensures h.batches <= Next(env, h, op).batches
  {
  }

  lemma {:induction false} PrefixFits(env: Env, ops: seq<Op>, n: nat)
    requires n <= |ops| && Fits(HistoryOf(env, ops).batches)
    ensures Fits(HistoryOf(env, ops[..n]).batches)
  {
    hide HintsFit, TableOf;
    if n < |ops| {
      var m := |ops| - 1;
      var a, b := HistoryOf(env, ops[..m]).batches, HistoryOf(env, ops).batches;
      NextBatches(env, HistoryOf(env, ops[..m]), ops[m]);
      assert forall i | 0 <= i < |a| :: a[i] == b[i];
      PrefixFits(env, ops[..m], n);
      assert ops[..m][..n] == ops[..n];
    } else {
      assert ops[..n] == ops;
    }
  }

  ghost predicate CoherentAll(env: Env, ops: seq<Op>) {
    forall n | 0 <= n <= |ops| :: Coherent(HistoryOf(env, ops[..n]))
  }

  lemma SplitCoherent(env: Env, ops: seq<Op>)
    requires ops != []
    ensures CoherentAll(env, ops) <==>
      CoherentAll(env, ops[..|ops| - 1]) && Coherent(HistoryOf(env, ops))
    ensures CoherentAll(env, ops[..|ops| - 1]) ==> Coherent(HistoryOf(env, ops[..|ops| - 1]))
  {
    hide Coherent, HistoryOf;
    var m := |ops| - 1;
    assert forall n | 0 <= n <= m :: ops[..m][..n] == ops[..n];
    assert ops[..|ops|] == ops;
    assert ops[..m][..m] == ops[..m];
  }

  lemma SplitHarmless(env: Env, ops: seq<Op>)
    requires ops != []
    ensures var m := |ops| - 1;
            HarmlessThroughout(env, ops) <==>
              HarmlessThroughout(env, ops[..m]) && Harmless(env, HistoryOf(env, ops[..m]), ops[m])
  {
    hide Harmless, HistoryOf;
    var m := |ops| - 1;
    assert forall n | 0 <= n < m :: ops[..m][..n] == ops[..n] && ops[..m][n] == ops[n];
  }

  lemma {:induction false} CoherentThroughout(env: Env, ops: seq<Op>)
    ensures CoherentAll(env, ops) <==> HarmlessThroughout(env, ops)
  {
    hide Coherent, Harmless, Next, CoherentAll, HarmlessThroughout;
    if ops == [] {
      NothingYet(env);
    } else {
      var m := |ops| - 1;
      CoherentThroughout(env, ops[..m]);
      SplitCoherent(env, ops);
      SplitHarmless(env, ops);
      if CoherentAll(env, ops[..m]) {
        NextCoherent(env, HistoryOf(env, ops[..m]), ops[m]);
      }
    }
  }

  lemma NothingYet(env: Env)
    ensures CoherentAll(env, []) && HarmlessThroughout(env, [])
  {
    NewIsCoherent();
  }

  lemma AgreesWhenLossless(env: Env, ops: seq<Op>)
    requires env.Valid() && Lossless(env, ops) && Fits(HistoryOf(env, ops).batches)
    ensures AgreesThroughout(env, ops) <==> HarmlessThroughout(env, ops)
  {
    hide AgreesAt, Coherent, Harmless, Fits, HistoryOf;
    CoherentThroughout(env, ops);
    assert CoherentAll(env, ops) <==> forall n | 0 <= n <= |ops| :: Coherent(HistoryOf(env, ops[..n]));
    forall n | 0 <= n <= |ops|
      ensures (forall k :: AgreesAt(env, ops[..n], k)) <==> Coherent(HistoryOf(env, ops[..n]))
    {
      PrefixFits(env, ops, n);
      AgreesIsCoherent(env, ops[..n]);
    }
    if AgreesThroughout(env, ops) {
      forall n | 0 <= n <= |ops| ensures Coherent(HistoryOf(env, ops[..n])) {
        assert forall k :: AgreesAt(env, ops[..n], k);
      }
    }
  }

  /** Right after a put its value is read back only if the compressor gives it back:
      a read delivers the row of the put or an earlier, genuine one, and a genuine
      row that delivers the value holds the same compressed bytes. */
  lemma AgreedPutReturns(env: Env, before: seq<Op>, k: u64, v: Data)
    requires env.Valid() && Lossless(env, before) && env.compress(v).Some?
    requires Fits(HistoryOf(env, before + [PutOp(k, v)]).batches)
    requires AgreesAt(env, before + [PutOp(k, v)], k)
    ensures env.uncompress(env.compress(v).value) == Some(v)
  {
    hide Get, Run, StateOf, DiskNewest, History.Logged, HistoryOf, Fits;
    var ops := before + [PutOp(k, v)];
    var h := HistoryOf(env, ops);
    assert ops[..|before|] == before;
    FitsKey(h.batches, k);
    RunIsHistory(env, ops);
    GetMeaning(env, h, k);
    SeenInLog(h, k);
    LoggedIs(env, ops);
    RowsGenuine(env, before);
    var r := Seen(h, k).value;
    assert RowsOf(env, ops) == RowsOf(env, before) + [ValueRow(env, k, env.compress(v).value)];
    if r in RowsOf(env, before) {
      var i :| 0 <= i < |RowsOf(env, before)| && RowsOf(env, before)[i] == r;
      assert Genuine(env, RowsOf(env, before)[i]);
    }
  }

  lemma {:induction false} AgreesThenLossless(env: Env, ops: seq<Op>)
    requires env.Valid() && Fits(HistoryOf(env, ops).batches) && AgreesThroughout(env, ops)
    ensures Lossless(env, ops)
  {
    hide AgreesAt, Fits, HistoryOf;
    if ops != [] {
      var m := |ops| - 1;
      var before, op := ops[..m], ops[m];
      assert ops == before + [op];
      assert forall n | 0 <= n <= m :: before[..n] == ops[..n];
      PrefixFits(env, ops, m);
      AgreesThenLossless(env, before);
      if op.PutOp? && env.compress(op.value).Some? {
        assert ops[..|ops|] == ops;
        assert AgreesAt(env, ops[..|ops|], op.key);
        AgreedPutReturns(env, before, op.key, op.value);
      }
    }
  }

  /** The engine refines the finite map throughout a run exactly when every operation
      was harmless when it was issued and the compressor lost no value of the run. */
  lemma RefinesExactly(env: Env, ops: seq<Op>)
    requires env.Valid() && Fits(HistoryOf(env, ops).batches)
    ensures AgreesThroughout(env, ops) <==> HarmlessThroughout(env, ops) && Lossless(env, ops)
  {
    hide AgreesThroughout, HarmlessThroughout, Lossless, Fits, HistoryOf;
    if AgreesThroughout(env, ops) {
      AgreesThenLossless(env, ops);
    }
    if Lossless(env, ops) {
      AgreesWhenLossless(env, ops);
    }
  }

  // ----- A put and the get after it -----

  /** A put of a key other than MAX is harmless. */
  lemma OtherKeysHarmless(env: Env, h: History, k: u64, v: Data)
    requires k != MAX
    ensures Harmless(env, h, PutOp(k, v))
  {
    if env.compress(v).Some? {
      var row := ValueRow(env, k, env.compress(v).value);
      assert h.Append(row).tail[|h.tail|] == row;
    }
  }

  /** Right after a harmless put a read shows its row, whatever was done before. */
  lemma PutIsSeen(env: Env, h: History, k: u64, v: Data)
    requires env.compress(v).Some? && Harmless(env, h, PutOp(k, v))
    ensures Seen(Next(env, h, PutOp(k, v)), k) == Some(ValueRow(env, k, env.compress(v).value))
  {
    hide DiskNewest, TotalSize;
    var row := ValueRow(env, k, env.compress(v).value);
    var h' := h.Append(row);
    AppendReads(h, row, k);
    NewestAppend(h.tail, row, k);
    CutReads(h', k);
    if SentinelOnly(h'.tail) {
      assert h'.tail[|h.tail|] == row;
    }
  }

  /** A put whose value the compressor takes and gives back succeeds and is read back,
      whatever was done before it. */
  lemma PutReturns(env: Env, before: seq<Op>, k: u64, v: Data)
    requires env.Valid() && env.compress(v).Some? && env.uncompress(env.compress(v).value) == Some(v)
    requires Fits(HistoryOf(env, before + [PutOp(k, v)]).batches)
    requires k == MAX ==> Harmless(env, HistoryOf(env, before), PutOp(k, v))
    ensures Put(env, Run(env, before), k, v) == Done(Run(env, before + [PutOp(k, v)]))
    ensures Get(env, Run(env, before + [PutOp(k, v)]), k) == Found(v)
  {
    hide Get, Put, StateOf, Fits, Harmless, HistoryOf, Seen;
    var op, ops := PutOp(k, v), before + [PutOp(k, v)];
    var h := HistoryOf(env, before);
    assert ops[..|before|] == before;
    assert HistoryOf(env, ops) == Next(env, h, op) by {
      LastIsNext(env, before, op);
    }
    FitsSize(HistoryOf(env, ops).batches);
    NextBatches(env, h, op);
    RunIsHistory(env, before);
    RunIsHistory(env, ops);
    ExecNext(env, h, op);
    if k != MAX {
      OtherKeysHarmless(env, h, k, v);
    }
    PutIsSeen(env, h, k, v);
    FitsKey(HistoryOf(env, ops).batches, k);
    GetMeaning(env, HistoryOf(env, ops), k);
  }

  lemma LastIsNext(env: Env, before: seq<Op>, op: Op)
    ensures HistoryOf(env, before + [op]) == Next(env, HistoryOf(env, before), op)
  {
    assert (before + [op])[..|before|] == before;
  }
}
