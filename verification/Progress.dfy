/** Nobody is ever stuck: a `get` that has begun can go on by itself and comes to its
    end, the holder of the lock comes to release it, and every sequence of puts and
    removes is what some run does. */
module Progress {
  import opened Bytes
  import opened Rows
  import opened MemTableSpec
  import opened SSTableIndexes
  import opened Indexes
  import opened BloomFilters
  import opened EngineSpec
  import opened Histories
  import opened Reads
  import opened Models
  import opened Refinement
  import opened Machine
  import opened Concurrency
  import opened Interleavings

  // ----- Longer runs -----

  function Last(run: seq<Config>): Config
    requires run != []
  {
    run[|run| - 1]
  }

  lemma Extended(env: Env, run: seq<Config>, a: Action)
    requires env.Valid() && IsRun(env, run)
    requires |Last(run).state.bits| == env.shape.cells && Enabled(env, Last(run), a)
    ensures IsRun(env, run + [Apply(env, Last(run), a)])
  {
    hide Enabled, Apply;
    var c := Last(run);
    var longer := run + [Apply(env, c, a)];
    forall i | 0 <= i < |longer| - 1 ensures Step(env, longer[i], longer[i + 1]) {
      if i < |run| - 1 {
        assert Step(env, run[i], run[i + 1]);
      } else {
        assert StepBy(env, c, longer[i + 1], a);
      }
    }
  }

  lemma BitsOf(env: Env, run: seq<Config>)
    requires env.Valid() && IsRun(env, run)
    ensures |Last(run).state.bits| == env.shape.cells
  {
    hide Step;
    if |run| > 1 {
      Grows(env, run, |run| - 1, |run| - 1);
    }
  }

  // ----- Readers -----

  /** No reader has tested more cells than a key has. */
  ghost predicate ProbesBounded(env: Env, c: Config) {
    forall id | id in c.readers && c.readers[id].Filter? :: c.readers[id].probe <= env.shape.probes
  }

  lemma StepBounded(env: Env, c: Config, c': Config, a: Action)
    requires env.Valid() && StepBy(env, c, c', a) && ProbesBounded(env, c)
    ensures ProbesBounded(env, c')
  {
    hide StepBy, Deliver, ChunkRow, Search, Shape.Probe, FindInMemory;
    forall id | id in c'.readers && c'.readers[id].Filter?
      ensures c'.readers[id].probe <= env.shape.probes
    {
      EnabledBy(env, c, c', a);
      StepReaders(env, c, c', a, id);
    }
  }

  lemma EnabledBy(env: Env, c: Config, c': Config, a: Action)
    requires env.Valid() && StepBy(env, c, c', a)
    ensures |c.state.bits| == env.shape.cells && Enabled(env, c, a)
  {
  }

  lemma {:induction false} RunBounded(env: Env, run: seq<Config>, t: nat)
    requires env.Valid() && IsRun(env, run) && t < |run|
    ensures ProbesBounded(env, run[t])
  {
    hide StepBy;
    if t > 0 {
      RunBounded(env, run, t - 1);
      assert Step(env, run[t - 1], run[t - 1 + 1]);
      var a :| StepBy(env, run[t - 1], run[t - 1 + 1], a);
      StepBounded(env, run[t - 1], run[t], a);
    }
  }

  /** What a reader does next. */
  function NextOf(id: nat, r: Reader): Action
    requires !r.Finished?
  {
    match r
    case Filter(_, _, _) => StepTestCell(id)
    case Lookup(_, _) => StepLookUp(id)
    case Fetch(_, _, _, _) => StepFetch(id)
  }

  /** Only for the index does a reader ever wait: it tests cells and reads a segment in
      every phase of every snapshot, and everything when nobody holds the lock. */
  lemma ReaderGoesOn(env: Env, run: seq<Config>, t: nat, id: nat)
    requires env.Valid() && IsRun(env, run) && t < |run|
    requires id in run[t].readers && !run[t].readers[id].Finished?
    requires run[t].phase.Unlocked? || !run[t].readers[id].Lookup?
    ensures Enabled(env, run[t], NextOf(id, run[t].readers[id]))
  {
    hide IsRun;
    RunBounded(env, run, t);
  }

  /** A new `get` can begin whenever nobody holds the lock, however many are running. */
  lemma ReaderCanStart(env: Env, c: Config, id: nat, k: u64)
    requires c.phase.Unlocked? && id !in c.readers
    ensures Enabled(env, c, StartGet(id, k))
  {
  }

  /** What a reader at its stage will return if nobody else moves. */
  function Outcome(env: Env, s: State, r: Reader): GetResult
    requires env.shape.Valid() && |s.bits| == env.shape.cells
    requires r.Filter? ==> r.probe <= env.shape.probes
  {
    match r
    case Finished(_, _, _, result) => result
    case Fetch(_, h, _, _) => DeliverChunk(env, ChunkRow(s.disk, h))
    case Lookup(k, _) => OutcomeOfList(env, s, k)
    case Filter(k, p, _) => OutcomeOfFilter(env, s, k, p)
  }

  function OutcomeOfList(env: Env, s: State, k: u64): GetResult {
    match Search(s.tables, k)
    case None => NotFound
    case Some(h) => DeliverChunk(env, ChunkRow(s.disk, h))
  }

  function OutcomeOfFilter(env: Env, s: State, k: u64, p: nat): GetResult
    requires env.shape.Valid() && |s.bits| == env.shape.cells && p <= env.shape.probes
  {
    if exists i: byte | p <= i < env.shape.probes :: s.bits[env.shape.Probe(k, i)] == 0 then NotFound
    else OutcomeOfList(env, s, k)
  }

  /** Steps that are left to a reader, at most. */
  function Left(env: Env, r: Reader): nat
    requires r.Filter? ==> r.probe <= env.shape.probes
  {
    match r
    case Finished(_, _, _, _) => 0
    case Fetch(_, _, _, _) => 1
    case Lookup(_, _) => 2
    case Filter(_, p, _) => env.shape.probes - p + 3
  }

  /** One own step brings a reader nearer to its end and keeps its outcome. */
  lemma OwnStep(env: Env, c: Config, id: nat)
    requires env.Valid() && |c.state.bits| == env.shape.cells && ProbesBounded(env, c)
    requires c.phase.Unlocked? && id in c.readers && !c.readers[id].Finished?
    ensures var a, r := NextOf(id, c.readers[id]), c.readers[id];
            && Enabled(env, c, a)
            && var c' := Apply(env, c, a);
               && c' == c.(readers := c.readers[id := c'.readers[id]], now := c.now + 1)
               && ProbesBounded(env, c') && c'.readers[id].key == r.key
               && Left(env, c'.readers[id]) < Left(env, r)
               && Outcome(env, c'.state, c'.readers[id]) == Outcome(env, c.state, r)
  {
    hide DeliverChunk, ChunkRow, Search, Shape.Probe;
    var r := c.readers[id];
    if r.Filter? && r.probe < env.shape.probes {
      FilterOutcome(env, c.state, r.key, r.probe);
    }
  }

  lemma FilterOutcome(env: Env, s: State, k: u64, p: byte)
    requires env.shape.Valid() && |s.bits| == env.shape.cells && p < env.shape.probes
    ensures OutcomeOfFilter(env, s, k, p)
         == if s.bits[env.shape.Probe(k, p)] == 0 then NotFound else OutcomeOfFilter(env, s, k, p + 1)
  {
    hide Shape.Probe, OutcomeOfList;
  }

  /** From here on only the reader `id` moves, and nothing but it changes. */
  ghost predicate Alone(run: seq<Config>, longer: seq<Config>, id: nat)
    requires run != []
  {
    && |longer| >= |run| && longer[..|run|] == run
    && forall i | |run| <= i < |longer| ::
         && longer[i].state == Last(run).state && longer[i].phase == Last(run).phase
         && longer[i].history == Last(run).history && longer[i].ops == Last(run).ops
         && id in longer[i].readers && longer[i].readers == Last(run).readers[id := longer[i].readers[id]]
  }

  /** With the lock free the steps of a reader alone lead to its end, in at most three
      steps more than it has cells to test, and to the result its stage foretells. */
  lemma {:induction false} ReaderFinishes(env: Env, run: seq<Config>, id: nat) returns (longer: seq<Config>)
    requires env.Valid() && IsRun(env, run) && Last(run).phase.Unlocked? && id in Last(run).readers
    ensures |Last(run).state.bits| == env.shape.cells && ProbesBounded(env, Last(run))
    ensures IsRun(env, longer) && ReaderDone(env, run, longer, id)
    decreases if Last(run).readers[id].Filter? then 3 + env.shape.probes - Last(run).readers[id].probe
              else if Last(run).readers[id].Lookup? then 2
              else if Last(run).readers[id].Fetch? then 1 else 0
  {
    hide IsRun, Outcome, Apply, Enabled;
    RunStarts(env, run);
    var c := Last(run);
    BitsOf(env, run);
    RunBounded(env, run, |run| - 1);
    if c.readers[id].Finished? {
      longer := run;
      AlreadyDone(env, run, id);
    } else {
      OwnStep(env, c, id);
      var next := run + [Apply(env, c, NextOf(id, c.readers[id]))];
      Extended(env, run, NextOf(id, c.readers[id]));
      longer := ReaderFinishes(env, next, id);
      DoneEarlier(env, run, next, longer, id);
    }
  }

  ghost predicate ReaderDone(env: Env, run: seq<Config>, longer: seq<Config>, id: nat)
    requires env.Valid() && run != []
    requires |Last(run).state.bits| == env.shape.cells && ProbesBounded(env, Last(run))
    requires id in Last(run).readers
  {
    && Alone(run, longer, id) && id in Last(longer).readers && Last(longer).readers[id].Finished?
    && |longer| <= |run| + Left(env, Last(run).readers[id])
    && Last(longer).readers[id].key == Last(run).readers[id].key
    && Last(longer).readers[id].result == Outcome(env, Last(run).state, Last(run).readers[id])
  }

  lemma AlreadyDone(env: Env, run: seq<Config>, id: nat)
    requires env.Valid() && run != [] && id in Last(run).readers && Last(run).readers[id].Finished?
    requires |Last(run).state.bits| == env.shape.cells && ProbesBounded(env, Last(run))
    ensures ReaderDone(env, run, run, id)
  {
  }

  lemma DoneEarlier(env: Env, run: seq<Config>, next: seq<Config>, longer: seq<Config>, id: nat)
    requires env.Valid() && run != [] && id in Last(run).readers
    requires |Last(run).state.bits| == env.shape.cells && ProbesBounded(env, Last(run))
    requires |next| == |run| + 1 && next[..|run|] == run && id in Last(next).readers
    requires Last(next) == Last(run).(readers := Last(run).readers[id := Last(next).readers[id]],
                                      now := Last(run).now + 1)
    requires ProbesBounded(env, Last(next))
    requires Left(env, Last(next).readers[id]) < Left(env, Last(run).readers[id])
    requires Last(next).readers[id].key == Last(run).readers[id].key
    requires Outcome(env, Last(next).state, Last(next).readers[id])
          == Outcome(env, Last(run).state, Last(run).readers[id])
    requires ReaderDone(env, next, longer, id)
    ensures ReaderDone(env, run, longer, id)
  {
    hide Outcome;
    assert longer[..|run|] == longer[..|next|][..|run|] == run;
    assert longer[|run|] == longer[..|next|][|run|] == Last(next);
  }

  /** A `get` begun with the lock free and left alone returns exactly what the engine's
      `get` returns in that state. */
  lemma GetAlone(env: Env, run: seq<Config>, id: nat, k: u64) returns (longer: seq<Config>)
    requires env.Valid() && IsRun(env, run) && Last(run).phase.Unlocked? && id !in Last(run).readers
    ensures |Last(run).state.bits| == env.shape.cells
    ensures IsRun(env, longer) && |run| < |longer| <= |run| + env.shape.probes + 4
    ensures longer[..|run|] == run && Last(longer).state == Last(run).state && id in Last(longer).readers
    ensures var r := Last(longer).readers[id];
            r.Finished? && r.key == k && r.result == Get(env, Last(run).state, k)
  {
    hide IsRun, Get, Outcome;
    RunStarts(env, run);
    var c := Last(run);
    BitsOf(env, run);
    var started := run + [Apply(env, c, StartGet(id, k))];
    Extended(env, run, StartGet(id, k));
    BeginsRight(env, c, k);
    longer := ReaderFinishes(env, started, id);
    assert longer[..|run|] == longer[..|started|][..|run|] == run;
  }

  lemma BeginsRight(env: Env, c: Config, k: u64)
    requires env.Valid() && |c.state.bits| == env.shape.cells
    ensures var r := Begin(env, c, k);
            && r.key == k && (r.Filter? ==> r.probe == 0) && Left(env, r) <= env.shape.probes + 3
            && Outcome(env, c.state, r) == Get(env, c.state, k)
  {
    hide DeliverChunk, ChunkRow, Search, Shape.Probe, FindInMemory, Deliver;
  }

  // ----- The holder of the lock -----

  /** What the holder of the lock does next. */
  function NextOfWriter(env: Env, c: Config): Action
    requires !c.phase.Unlocked?
  {
    match c.phase
    case Inserted(put) => if put && c.state.mem.size >= env.limit then StepWriteChunk else Release
    case ChunkWritten(_, _) => StepClear
    case Filtering(_, t, row, probe) =>
      if row >= |t| then StepWriteBloom else if probe < env.shape.probes then StepSetCell else StepNextRow
    case BloomWritten(_, _) => StepWriteIndex
    case _ => StepRegister
  }

  /** How far its snapshot is. */
  function Stage(p: Phase): nat {
    match p
    case Unlocked => 0
    case IndexWritten(_, _) => 1
    case BloomWritten(_, _) => 2
    case Filtering(_, _, _, _) => 3
    case ChunkWritten(_, _) => 4
    case Inserted(_) => 5
  }

  /** The rows and the cells that are still to be set. */
  function RowsLeft(p: Phase): nat {
    if p.Filtering? && p.row < |p.table| then |p.table| - p.row else 0
  }

  function CellsLeft(env: Env, p: Phase): nat {
    if p.Filtering? && p.probe < env.shape.probes then env.shape.probes - p.probe else 0
  }

  ghost predicate Sound(env: Env, c: Config)
    requires env.Valid()
  {
    Inv(env, c) && Synced(env, c) && |c.state.bits| == env.shape.cells
  }

  lemma NextIsEnabled(env: Env, c: Config)
    requires env.Valid() && Inv(env, c) && !c.phase.Unlocked? && |c.history.batches| < TWO32
    ensures Enabled(env, c, NextOfWriter(env, c))
  {
    hide SerializeAll, TableOf, MemStateOf, Bits, AddRows, PartialBits, IndexFile, Encode, Table, Register,
         IndexFilesOf, Chunks;
    NextIdIsFree(c.history.batches);
  }

  /** The step of the holder of the lock is enabled, touches no reader and no operation,
      and brings the release nearer. */
  lemma WriterStep(env: Env, c: Config)
    requires env.Valid() && Sound(env, c) && !c.phase.Unlocked? && |c.history.batches| < TWO32
    ensures Enabled(env, c, NextOfWriter(env, c))
    ensures var c' := Apply(env, c, NextOfWriter(env, c));
            && Sound(env, c') && c'.ops == c.ops && c'.readers == c.readers
            && (c'.history == c.history || (c'.phase.Unlocked? && c'.history == c.history.Cut()))
            && (Stage(c'.phase) < Stage(c.phase)
                || (Stage(c'.phase) == Stage(c.phase) && RowsLeft(c'.phase) < RowsLeft(c.phase))
                || (Stage(c'.phase) == Stage(c.phase) && RowsLeft(c'.phase) == RowsLeft(c.phase)
                    && CellsLeft(env, c'.phase) < CellsLeft(env, c.phase)))
  {
    hide Inv, Synced, WriteChunk, ClearMem, WriteBloom, WriteIndex, RegisterIndex, PutRow, Remove, Begin, Read,
         Shape.Probe, Table;
    var a := NextOfWriter(env, c);
    NextIsEnabled(env, c);
    PhaseIs(env, c);
    var c' := Apply(env, c, a);
    assert StepBy(env, c, c', a) && Step(env, c, c');
    StepFacts(env, c, c');
    StepKeepsInv(env, c, c');
    StepSynced(env, c, c', a);
    InvBits(env, c');
  }

  lemma PhaseIs(env: Env, c: Config)
    requires env.Valid() && Inv(env, c)
    ensures PhaseFits(env, c.history, c.phase)
  {
  }

  /** Whoever holds the lock comes to release it, by its own steps. */
  lemma {:induction false} WriterFinishes(env: Env, run: seq<Config>) returns (longer: seq<Config>)
    requires env.Valid() && IsRun(env, run) && Sound(env, Last(run)) && |Last(run).history.batches| < TWO32
    ensures IsRun(env, longer) && |longer| >= |run| && longer[..|run|] == run
    ensures Sound(env, Last(longer)) && Last(longer).phase.Unlocked?
    ensures Last(longer).ops == Last(run).ops && Last(longer).readers == Last(run).readers
    decreases Stage(Last(run).phase), RowsLeft(Last(run).phase), CellsLeft(env, Last(run).phase)
  {
    hide IsRun, Sound, Apply, Enabled;
    RunStarts(env, run);
    var c := Last(run);
    if c.phase.Unlocked? {
      longer := run;
    } else {
      WriterStep(env, c);
      SoundBits(env, c);
      var next := run + [Apply(env, c, NextOfWriter(env, c))];
      Extended(env, run, NextOfWriter(env, c));
      if Last(next).phase.Unlocked? {
        longer := next;
      } else {
        longer := WriterFinishes(env, next);
        assert longer[..|run|] == longer[..|next|][..|run|] == run;
      }
    }
  }

  lemma SoundBits(env: Env, c: Config)
    requires env.Valid() && Sound(env, c)
    ensures |c.state.bits| == env.shape.cells
    ensures c.phase.Unlocked? ==> c.history == HistoryOf(env, c.ops)
  {
    hide Inv;
  }

  // ----- Every sequence of operations is some run -----

  function BeginOf(op: Op): Action {
    match op
    case PutOp(k, v) => BeginPut(k, v)
    case RemoveOp(k) => BeginRemove(k)
  }

  lemma BeginIsSound(env: Env, c: Config, op: Op)
    requires env.Valid() && Sound(env, c) && c.phase.Unlocked? && |c.history.batches| <= TWO32
    requires op.PutOp? ==> env.compress(op.value).Some?
    ensures Enabled(env, c, BeginOf(op))
    ensures var c' := Apply(env, c, BeginOf(op));
            && Sound(env, c') && c'.ops == c.ops + [op] && c'.readers == c.readers
            && c'.history.batches == c.history.batches
  {
    hide Inv, Synced, WriteChunk, ClearMem, WriteBloom, WriteIndex, RegisterIndex, PutRow, Remove, Begin, Read;
    var a := BeginOf(op);
    var c' := Apply(env, c, a);
    assert StepBy(env, c, c', a) && Step(env, c, c');
    StepFacts(env, c, c');
    StepKeepsInv(env, c, c');
    StepSynced(env, c, c', a);
  }

  /** Every sequence of puts that the compressor accepts and of removes is what some run
      issues, one after another, ending with the lock free. */
  lemma {:induction false} EveryRunHappens(env: Env, ops: seq<Op>) returns (run: seq<Config>)
    requires env.Valid() && AllStored(env, ops) && |HistoryOf(env, ops).batches| < TWO32
    ensures IsRun(env, run) && Last(run).phase.Unlocked? && Last(run).ops == ops && Last(run).readers == map[]
    ensures Sound(env, Last(run)) && (RunFits(run) <==> Fits(HistoryOf(env, ops).batches))
  {
    hide IsRun, Sound, Apply, Enabled, HistoryOf, Fits;
    if ops == [] {
      run := [Start(env)];
      StartsRun(env);
    } else {
      var m := |ops| - 1;
      var before, op := ops[..m], ops[m];
      assert ops == before + [op];
      LastIsNext(env, before, op);
      NextBatches(env, HistoryOf(env, before), op);
      var first := EveryRunHappens(env, before);
      RunStarts(env, first);
      SoundBits(env, Last(first));
      BeginIsSound(env, Last(first), op);
      Extended(env, first, BeginOf(op));
      run := WriterFinishes(env, first + [Apply(env, Last(first), BeginOf(op))]);
      RunStarts(env, run);
    }
    SoundBits(env, Last(run));
  }

  lemma StartsRun(env: Env)
    requires env.Valid()
    ensures IsRun(env, [Start(env)]) && Sound(env, Start(env))
  {
    hide Inv, FreshState;
    StartInv(env);
    InvBits(env, Start(env));
  }

  /** Whatever is going on, any `get` in progress can still come to its end: the holder of
      the lock finishes, if there is one, and then the reader does. */
  lemma EveryGetCanFinish(env: Env, run: seq<Config>, id: nat) returns (longer: seq<Config>)
    requires env.Valid() && IsRun(env, run) && RunFits(run) && |Last(run).history.batches| < TWO32
    requires id in Last(run).readers
    ensures IsRun(env, longer) && |longer| >= |run| && longer[..|run|] == run
    ensures id in Last(longer).readers && Last(longer).readers[id].Finished?
    ensures Last(longer).ops == Last(run).ops
  {
    hide IsRun, RunFits, Inv, Synced, Outcome, Sound;
    RunStarts(env, run);
    RunIsSound(env, run);
    var unlocked := WriterFinishes(env, run);
    RunStarts(env, unlocked);
    longer := ReaderFinishes(env, unlocked, id);
    assert longer[..|run|] == longer[..|unlocked|][..|run|] == run;
    SameOps(unlocked, longer, id);
  }

  lemma RunIsSound(env: Env, run: seq<Config>)
    requires env.Valid() && IsRun(env, run) && RunFits(run)
    ensures Sound(env, Last(run))
  {
    hide IsRun, RunFits, Inv, Synced;
    RunStarts(env, run);
    RunInv(env, run, |run| - 1);
    RunSynced(env, run, |run| - 1);
    BitsOf(env, run);
  }

  lemma SameOps(run: seq<Config>, longer: seq<Config>, id: nat)
    requires run != [] && Alone(run, longer, id)
    ensures Last(longer).ops == Last(run).ops
  {
    if |longer| == |run| {
      assert longer[..|run|] == longer;
    }
  }
}
