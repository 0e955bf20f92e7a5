/** Interleaved runs against sequential ones: whatever the readers do, the writers'
    steps add up to the puts and removes one after another. */
module Interleavings {
  import opened Bytes
  import opened Rows
  import opened MemTableSpec
  import opened MemTables
  import opened EngineSpec
  import opened Histories
  import opened Reads
  import opened Models
  import opened Coherence
  import opened Refinement
  import opened Machine
  import opened Concurrency

  // ----- The history of a run is that of its operations -----

  /** The last operation is a put whose row is in, but whose limit check is not over. */
  ghost predicate Pending(env: Env, c: Config) {
    c.ops != [] && c.ops[|c.ops| - 1].PutOp? && RowOf(env, c.ops[|c.ops| - 1]).Some?
    && c.history == HistoryOf(env, c.ops[..|c.ops| - 1]).Append(RowOf(env, c.ops[|c.ops| - 1]).value)
  }

  ghost predicate Synced(env: Env, c: Config) {
    match c.phase
    case Unlocked => c.history == HistoryOf(env, c.ops)
    case Inserted(put) => if put then Pending(env, c) else c.history == HistoryOf(env, c.ops)
    case _ => Pending(env, c) && TotalSize(c.history.tail) >= env.limit
  }

  /** A pending put that is released, or whose snapshot ends, has done what a put does. */
  lemma PendingEnds(env: Env, c: Config)
    requires Pending(env, c)
    ensures HistoryOf(env, c.ops)
         == if TotalSize(c.history.tail) >= env.limit then c.history.Cut() else c.history
  {
    hide TotalSize;
  }

  lemma SizeIs(env: Env, c: Config)
    requires env.Valid() && Inv(env, c) && c.phase.Inserted?
    ensures c.state.mem.size == TotalSize(c.history.tail)
  {
    hide StateOf;
    SizeOfState(env, c.history);
  }

  lemma StepSynced(env: Env, c: Config, c': Config, a: Action)
    requires env.Valid() && StepBy(env, c, c', a) && Inv(env, c) && Synced(env, c)
    ensures Synced(env, c')
  {
    hide Inv, HistoryOf, TotalSize, WriteChunk, WriteBloom, WriteIndex, RegisterIndex, PutRow, Remove, ClearMem,
         Begin, Read, History.Cut;
    match a
    case BeginPut(k, v) => assert c'.ops[..|c.ops|] == c.ops;
    case BeginRemove(k) => RemoveHistory(env, c.ops, k);
    case Release =>
      SizeIs(env, c);
      if c.phase.put {
        PendingEnds(env, c);
      }
    case StepWriteChunk => SizeIs(env, c);
    case StepRegister => PendingEnds(env, c);
    case _ =>
  }

  lemma RemoveHistory(env: Env, ops: seq<Op>, k: u64)
    ensures HistoryOf(env, ops + [RemoveOp(k)]) == HistoryOf(env, ops).Append(RemoveRow(k))
  {
    assert (ops + [RemoveOp(k)])[..|ops|] == ops;
  }

  lemma {:induction false} RunSynced(env: Env, run: seq<Config>, t: nat)
    requires env.Valid() && IsRun(env, run) && RunFits(run) && t < |run|
    ensures Synced(env, run[t])
  {
    hide RunFits, StepBy, Inv;
    if t > 0 {
      RunSynced(env, run, t - 1);
      RunInv(env, run, t - 1);
      assert Step(env, run[t - 1], run[t - 1 + 1]);
      var a :| StepBy(env, run[t - 1], run[t - 1 + 1], a);
      StepSynced(env, run[t - 1], run[t], a);
    }
  }

  /** Whenever nobody holds the lock, memory and files are those of a sequential run
      of the operations begun so far. */
  lemma RunIsSequential(env: Env, run: seq<Config>, t: nat)
    requires env.Valid() && IsRun(env, run) && RunFits(run) && t < |run| && run[t].phase.Unlocked?
    ensures run[t].state == Run(env, run[t].ops)
  {
    hide RunFits, Inv, IsRun, StateOf, HistoryOf, Run, Fits;
    RunSynced(env, run, t);
    RunInv(env, run, t);
    UnlockedState(env, run[t]);
    FitsSize(run[t].history.batches);
    RunIsHistory(env, run[t].ops);
  }

  // ----- Every operation of the run ends at some instant -----

  lemma StepEnds(env: Env, c: Config, c': Config, a: Action)
    requires env.Valid() && StepBy(env, c, c', a)
    ensures c'.ops == c.ops || (c.phase.Unlocked? && |c'.ops| == |c.ops| + 1 && c'.ops[..|c.ops|] == c.ops)
  {
    hide Begin, Read, WriteChunk, WriteBloom, WriteIndex, RegisterIndex, PutRow, Remove, ClearMem;
  }

  /** Each prefix of the operations is what had been issued at an unlocked instant. */
  lemma {:induction false} PrefixInstant(env: Env, run: seq<Config>, t: nat, n: nat) returns (i: nat)
    requires env.Valid() && IsRun(env, run) && t < |run|
    requires n < |run[t].ops| || (n == |run[t].ops| && run[t].phase.Unlocked?)
    ensures i <= t && run[i].phase.Unlocked? && run[i].ops == run[t].ops[..n]
  {
    hide StepBy;
    if n == |run[t].ops| && run[t].phase.Unlocked? {
      i := t;
      assert run[t].ops[..n] == run[t].ops;
    } else {
      assert Step(env, run[t - 1], run[t - 1 + 1]);
      var a :| StepBy(env, run[t - 1], run[t - 1 + 1], a);
      StepEnds(env, run[t - 1], run[t], a);
      i := PrefixInstant(env, run, t - 1, n);
      assert run[t].ops[..n] == run[t - 1].ops[..n];
    }
  }

  /** An atomic read of any key at any unlocked instant is the finite map's answer for
      the operations issued until then. */
  ghost predicate AtomicReadsAgree(env: Env, run: seq<Config>)
    requires env.Valid()
  {
    forall i, k | 0 <= i < |run| && run[i].phase.Unlocked? :: ReadAgrees(env, run[i], k)
  }

  ghost predicate ReadAgrees(env: Env, c: Config, k: u64)
    requires env.Valid()
  {
    |c.state.bits| == env.shape.cells && Get(env, c.state, k) == Answer(Model(env, c.ops), k)
  }

  lemma ReadIsSequential(env: Env, run: seq<Config>, i: nat, k: u64)
    requires env.Valid() && IsRun(env, run) && RunFits(run) && i < |run| && run[i].phase.Unlocked?
    ensures ReadAgrees(env, run[i], k) <==> AgreesAt(env, run[i].ops, k)
  {
    hide RunFits, IsRun, Run, Get, Model, Answer;
    RunIsSequential(env, run, i);
  }

  lemma RunStarts(env: Env, run: seq<Config>)
    requires env.Valid() && IsRun(env, run)
    ensures run != []
  {
  }

  lemma AtomicIsSequential(env: Env, run: seq<Config>)
    requires env.Valid() && IsRun(env, run) && RunFits(run) && run[|run| - 1].phase.Unlocked?
    ensures AtomicReadsAgree(env, run) <==> AgreesThroughout(env, run[|run| - 1].ops)
  {
    hide RunFits, IsRun, ReadAgrees, AgreesAt;
    RunStarts(env, run);
    var t := |run| - 1;
    var ops := run[t].ops;
    if AtomicReadsAgree(env, run) {
      forall n, k | 0 <= n <= |ops| ensures AgreesAt(env, ops[..n], k) {
        var i := PrefixInstant(env, run, t, n);
        ReadIsSequential(env, run, i, k);
      }
    }
    if AgreesThroughout(env, ops) {
      forall i, k | 0 <= i < |run| && run[i].phase.Unlocked? ensures ReadAgrees(env, run[i], k) {
        OpsGrow(env, run, i, t);
        assert run[i].ops == ops[..|run[i].ops|];
        ReadIsSequential(env, run, i, k);
      }
    }
  }

  // ----- Harmless steps are harmless operations -----

  /** The operations whose effect on agreement is settled: a put's is when it ends. */
  function Decided(c: Config): seq<Op> {
    if c.phase.Unlocked? || c.phase == Inserted(false) || c.ops == [] then c.ops
    else c.ops[..|c.ops| - 1]
  }

  /** `HarmlessBy`, told from the two ends of a step. */
  ghost predicate HarmlessStep(c: Config, c': Config) {
    && (|c'.ops| > |c.ops| && c'.ops[|c.ops|].RemoveOp? ==>
          LiveOnly(DiskNewest(c.history.batches, c'.ops[|c.ops|].key)).None?)
    && (c.phase.IndexWritten? && c'.phase.Unlocked? && SentinelOnly(c.history.tail) ==>
          LiveOnly(DiskNewest(c.history.batches, MAX)) == Said(c.history, MAX))
  }

  lemma HarmlessByEnds(env: Env, c: Config, c': Config, a: Action)
    requires env.Valid() && StepBy(env, c, c', a)
    ensures HarmlessBy(c, a) <==> HarmlessStep(c, c')
  {
    hide DiskNewest, Said, SentinelOnly, Begin, Read, WriteChunk, WriteBloom, WriteIndex, RegisterIndex, PutRow,
         Remove, ClearMem;
  }

  /** A put is settled by its end: harmless unless it loses MAX. */
  lemma PendingHarmless(env: Env, c: Config)
    requires Pending(env, c)
    ensures Harmless(env, HistoryOf(env, c.ops[..|c.ops| - 1]), c.ops[|c.ops| - 1])
       <==> (TotalSize(c.history.tail) >= env.limit && SentinelOnly(c.history.tail) ==>
               LiveOnly(DiskNewest(c.history.batches, MAX)) == Said(c.history, MAX))
  {
    hide TotalSize, DiskNewest, HistoryOf, History.Logged;
    var m := |c.ops| - 1;
    var h, row := HistoryOf(env, c.ops[..m]), RowOf(env, c.ops[m]).value;
    AppendReads(h, row, MAX);
    if SentinelOnly(c.history.tail) {
      assert c.history.tail[|h.tail|] == row;
    }
  }

  lemma StepDecided(env: Env, c: Config, c': Config, a: Action)
    requires env.Valid() && StepBy(env, c, c', a) && Inv(env, c) && Synced(env, c)
    ensures HarmlessThroughout(env, Decided(c'))
       <==> HarmlessThroughout(env, Decided(c)) && HarmlessStep(c, c')
  {
    hide Inv, HistoryOf, TotalSize, WriteChunk, WriteBloom, WriteIndex, RegisterIndex, PutRow, Remove, ClearMem,
         Begin, Read, HarmlessThroughout, DiskNewest, Said, SentinelOnly;
    match a
    case BeginPut(k, v) => assert c'.ops[..|c.ops|] == c.ops;
    case BeginRemove(k) =>
      assert c'.ops[..|c.ops|] == c.ops;
      SplitHarmless(env, c'.ops);
    case Release =>
      if c.phase.put {
        SizeIs(env, c);
        SplitHarmless(env, c.ops);
        PendingHarmless(env, c);
      }
    case StepRegister =>
      SplitHarmless(env, c.ops);
      PendingHarmless(env, c);
    case _ =>
  }

  ghost predicate HarmlessSteps(run: seq<Config>, t: nat) {
    forall i | 0 <= i < t && i + 1 < |run| :: HarmlessStep(run[i], run[i + 1])
  }

  lemma HarmlessRunIs(env: Env, run: seq<Config>)
    requires env.Valid() && IsRun(env, run)
    ensures HarmlessRun(env, run) <==> HarmlessSteps(run, |run| - 1)
  {
    hide StepBy, HarmlessBy, HarmlessStep;
    forall i, a | 0 <= i < |run| - 1 && StepBy(env, run[i], run[i + 1], a)
      ensures HarmlessBy(run[i], a) <==> HarmlessStep(run[i], run[i + 1])
    {
      HarmlessByEnds(env, run[i], run[i + 1], a);
    }
    if HarmlessRun(env, run) {
      forall i | 0 <= i < |run| - 1 ensures HarmlessStep(run[i], run[i + 1]) {
        assert Step(env, run[i], run[i + 1]);
        var a :| StepBy(env, run[i], run[i + 1], a);
        assert HarmlessBy(run[i], a);
      }
    }
  }

  lemma {:induction false} DecidedHarmless(env: Env, run: seq<Config>, t: nat)
    requires env.Valid() && IsRun(env, run) && RunFits(run) && t < |run|
    ensures HarmlessThroughout(env, Decided(run[t])) <==> HarmlessSteps(run, t)
  {
    hide RunFits, StepBy, Inv, Synced, HarmlessStep, HarmlessThroughout, Decided;
    if t == 0 {
      NothingDecided(env);
    } else {
      DecidedHarmless(env, run, t - 1);
      RunSynced(env, run, t - 1);
      RunInv(env, run, t - 1);
      assert Step(env, run[t - 1], run[t - 1 + 1]);
      var a :| StepBy(env, run[t - 1], run[t - 1 + 1], a);
      StepDecided(env, run[t - 1], run[t], a);
    }
  }

  lemma NothingDecided(env: Env)
    ensures HarmlessThroughout(env, Decided(Start(env)))
  {
  }

  // ----- The theorems -----

  /** A run's steps are harmless exactly when its operations, one after another, are;
      how they were interleaved with readers does not matter. */
  lemma HarmlessExactly(env: Env, run: seq<Config>)
    requires env.Valid() && IsRun(env, run) && RunFits(run) && run[|run| - 1].phase.Unlocked?
    ensures HarmlessRun(env, run) <==> HarmlessThroughout(env, run[|run| - 1].ops)
  {
    hide IsRun, RunFits, HarmlessRun, HarmlessSteps, HarmlessThroughout;
    RunStarts(env, run);
    HarmlessRunIs(env, run);
    DecidedHarmless(env, run, |run| - 1);
  }

  /** In an interleaved run all atomic reads agree with the finite map exactly when
      every step was harmless and the compressor lost no value. */
  lemma InterleavedExactly(env: Env, run: seq<Config>)
    requires env.Valid() && IsRun(env, run) && RunFits(run) && run[|run| - 1].phase.Unlocked?
    ensures AtomicReadsAgree(env, run) <==> HarmlessRun(env, run) && Lossless(env, run[|run| - 1].ops)
  {
    hide IsRun, HarmlessRun, HarmlessThroughout, AtomicReadsAgree, AgreesThroughout, Lossless, Fits, HistoryOf,
         Inv;
    RunStarts(env, run);
    var t := |run| - 1;
    RunSynced(env, run, t);
    AtomicIsSequential(env, run);
    HarmlessExactly(env, run);
    RefinesExactly(env, run[t].ops);
  }
}
