/** Concurrent reads: every `get` that overlaps writers returns what an atomic
    `get` would have returned at some instant of its own duration. */
module Concurrency {
  import opened Bytes
  import opened Rows
  import opened Records
  import opened MemTableSpec
  import opened SSTableIndexes
  import opened Indexes
  import opened BloomFilters
  import opened MemTables
  import opened EngineSpec
  import opened Histories
  import opened Reads
  import opened Models
  import opened Coherence
  import opened Machine

  // ----- Runs -----

  ghost predicate Step(env: Env, c: Config, c': Config)
    requires env.Valid()
  {
    exists a :: StepBy(env, c, c', a)
  }

  ghost predicate StepBy(env: Env, c: Config, c': Config, a: Action)
    requires env.Valid()
  {
    |c.state.bits| == env.shape.cells && Enabled(env, c, a) && c' == Apply(env, c, a)
  }

  /** A run from a new directory, with any number of writers and readers. */
  ghost predicate IsRun(env: Env, run: seq<Config>)
    requires env.Valid()
  {
    && run != [] && run[0] == Start(env)
    && forall i | 0 <= i < |run| - 1 :: Step(env, run[i], run[i + 1])
  }

  /** 32-bit fields hold everything the run has indexed. */
  ghost predicate RunFits(run: seq<Config>) {
    run != [] ==> Fits(run[|run| - 1].history.batches)
  }

  // ----- What every step keeps -----

  lemma StepFacts(env: Env, c: Config, c': Config)
    requires env.Valid() && Step(env, c, c')
    ensures c'.now == c.now + 1
    ensures |c'.state.bits| == |c.state.bits| == env.shape.cells
    ensures forall p | 0 <= p < env.shape.cells :: c.state.bits[p] != 0 ==> c'.state.bits[p] != 0
    ensures c.history.batches <= c'.history.batches
    ensures c'.history.batches == c.history.batches
            || (c'.phase.Unlocked? && c'.history == c.history.Cut())
  {
    hide Serialize, SerializeAll, Table, Encode, ChunkRow, Search, Deliver, Find;
    var a :| StepBy(env, c, c', a);
  }

  lemma StepKeepsInv(env: Env, c: Config, c': Config)
    requires env.Valid() && Step(env, c, c') && Inv(env, c) && |c'.history.batches| <= TWO32
    ensures Inv(env, c')
  {
    hide Inv, WriteChunk, WriteBloom, WriteIndex, RegisterIndex, PutRow, Remove, ClearMem, Begin, Read;
    var a :| StepBy(env, c, c', a);
    InvBits(env, c);
    if a.StartGet? || a.StepTestCell? || a.StepLookUp? || a.StepFetch? {
      InvOfShared(env, c, c');
    } else {
      WriteKeeps(env, c, a);
      InvOfShared(env, Write(env, c, a), c');
    }
  }

  lemma InvOfShared(env: Env, c: Config, c': Config)
    requires env.Valid() && Inv(env, c)
    requires c'.state == c.state && c'.phase == c.phase && c'.history == c.history
    ensures Inv(env, c')
  {
    hide PhaseState, PhaseFits;
  }

  lemma {:induction false} Grows(env: Env, run: seq<Config>, i: nat, j: nat)
    requires env.Valid() && IsRun(env, run) && i <= j < |run|
    ensures run[i].history.batches <= run[j].history.batches
    ensures |run[i].state.bits| == |run[j].state.bits| == env.shape.cells
    ensures forall p | 0 <= p < env.shape.cells ::
              run[i].state.bits[p] != 0 ==> run[j].state.bits[p] != 0
    decreases j
  {
    hide Step;
    if i < j {
      Grows(env, run, i, j - 1);
      assert Step(env, run[j - 1], run[j - 1 + 1]);
      StepFacts(env, run[j - 1], run[j]);
    } else if i > 0 {
      assert Step(env, run[i - 1], run[i - 1 + 1]);
      StepFacts(env, run[i - 1], run[i]);
    }
  }

  lemma PrefixOfFitting(a: seq<seq<Row>>, b: seq<seq<Row>>)
    requires a <= b && Fits(b)
    ensures Fits(a)
  {
    hide HintsFit, TableOf;
    assert forall i | 0 <= i < |a| :: a[i] == b[i];
  }

  /** The invariant holds at every instant of every run. */
  lemma {:induction false} RunInv(env: Env, run: seq<Config>, t: nat)
    requires env.Valid() && IsRun(env, run) && RunFits(run) && t < |run|
    ensures Inv(env, run[t]) && run[t].now == t && Fits(run[t].history.batches)
  {
    hide Step, Inv, Fits;
    Grows(env, run, t, |run| - 1);
    PrefixOfFitting(run[t].history.batches, run[|run| - 1].history.batches);
    FitsSize(run[t].history.batches);
    if t == 0 {
      StartInv(env);
    } else {
      RunInv(env, run, t - 1);
      assert Step(env, run[t - 1], run[t - 1 + 1]);
      StepFacts(env, run[t - 1], run[t]);
      StepKeepsInv(env, run[t - 1], run[t]);
    }
  }

  lemma StartInv(env: Env)
    requires env.Valid()
    ensures Inv(env, Start(env))
  {
    hide StateOf, FreshState;
    FreshOpen(env);
  }

  // ----- The witness -----

  /** Nobody holds the lock at instant `i`, and an atomic read there gives `result`. */
  ghost predicate Explains(env: Env, run: seq<Config>, i: nat, k: u64, result: GetResult)
    requires env.Valid()
  {
    i < |run| && run[i].phase.Unlocked? && |run[i].state.bits| == env.shape.cells
    && Get(env, run[i].state, k) == result
  }

  lemma ExplainedBy(env: Env, run: seq<Config>, i: nat, k: u64)
    requires env.Valid() && IsRun(env, run) && RunFits(run) && i < |run| && run[i].phase.Unlocked?
    ensures Explains(env, run, i, k, DeliverSeen(env, Seen(run[i].history, k)))
  {
    hide Get, StateOf, Seen, DeliverSeen, IsRun, RunFits, Fits;
    RunInv(env, run, i);
    FitsKey(run[i].history.batches, k);
    GetMeaning(env, run[i].history, k);
  }

  /** After a miss in the memtable at `b`, the segments at any later `t` agree
      with an atomic read at some unlocked instant in between. */
  lemma {:induction false} MissWitness(env: Env, run: seq<Config>, b: nat, t: nat, k: u64) returns (i: nat)
    requires env.Valid() && IsRun(env, run) && b <= t < |run|
    requires run[b].phase.Unlocked? && LiveOnly(Newest(run[b].history.tail, k)).None?
    ensures b <= i <= t && run[i].phase.Unlocked?
    ensures Seen(run[i].history, k) == LiveOnly(DiskNewest(run[t].history.batches, k))
    decreases t
  {
    hide Step, DiskNewest;
    if b == t {
      i := b;
    } else {
      i := MissWitness(env, run, b, t - 1, k);
      assert Step(env, run[t - 1], run[t - 1 + 1]);
      StepFacts(env, run[t - 1], run[t]);
      if run[t].history.batches != run[t - 1].history.batches {
        i := t;
      }
    }
  }

  // ----- Readers -----

  ghost predicate MissedAt(run: seq<Config>, b: nat, k: u64) {
    b < |run| && run[b].phase.Unlocked? && LiveOnly(Newest(run[b].history.tail, k)).None?
  }

  /** A reader that has already looked last has its answer explained. */
  ghost predicate Explained(env: Env, run: seq<Config>, b: nat, l: nat, k: u64, result: GetResult)
    requires env.Valid()
  {
    exists i: nat | b <= i <= l :: Explains(env, run, i, k, result)
  }

  ghost predicate ReaderInv(env: Env, run: seq<Config>, t: nat, r: Reader)
    requires env.Valid() && t < |run|
  {
    match r
    case Filter(k, p, b) => b <= t && MissedAt(run, b, k)
    case Lookup(k, b) => b <= t && MissedAt(run, b, k)
    case Fetch(k, h, b, l) =>
      b <= l < t && h.fileId < |run[t].history.batches|
      && Explained(env, run, b, l, k, DeliverChunk(env, ChunkRow(DiskOf(env, run[t].history.batches), h)))
    case Finished(k, b, l, result) => b <= l <= t && Explained(env, run, b, l, k, result)
  }

  /** A segment's file is written once: later instants read the same row. */
  lemma ChunkStable(env: Env, a: seq<seq<Row>>, b: seq<seq<Row>>, d: Disk, h: SearchHint)
    requires env.Valid() && a <= b && h.fileId < |a| && HasChunks(d, b)
    ensures ChunkRow(d, h) == ChunkRow(DiskOf(env, a), h)
  {
    hide Deserialize, ReadAt, SerializeAll, TableOf, IndexFilesOf, Bits;
    assert a[h.fileId] == b[h.fileId];
    assert DiskOf(env, a).chunks[h.fileId] == SerializeAll(TableOf(a[h.fileId]));
  }

  lemma PhaseChunks(env: Env, c: Config)
    requires env.Valid() && Inv(env, c)
    ensures HasChunks(c.state.disk, c.history.batches)
  {
    hide SerializeAll, TableOf, MemStateOf, Bits, Tables, IndexFilesOf, AddRows, PartialBits, SegmentIndex,
         Encode, Table;
  }

  lemma {:induction false} HintInRange(batches: seq<seq<Row>>, k: u64)
    requires |batches| <= TWO32 && Search(Tables(batches), k).Some?
    ensures Search(Tables(batches), k).value.fileId < |batches|
  {
    hide Register, TableOf;
    var n := |batches| - 1;
    if batches != [] && k !in SegmentIndex(n, batches[n]).hints {
      HintInRange(batches[..n], k);
    }
  }

  lemma UnlockedState(env: Env, c: Config)
    requires env.Valid() && Inv(env, c) && c.phase.Unlocked?
    ensures c.state == StateOf(env, c.history)
  {
    hide StateOf;
  }

  lemma MemoryMiss(env: Env, c: Config, k: u64)
    requires env.Valid() && Inv(env, c) && c.phase.Unlocked?
    ensures FindInMemory(c.state, k) == LiveOnly(Newest(c.history.tail, k))
  {
    hide MemOf, Find;
    UnlockedState(env, c);
    LookupIsNewest(c.history.tail, k);
  }

  // ----- One step of one reader -----

  ghost predicate GoodRun(env: Env, run: seq<Config>)
    requires env.Valid()
  {
    IsRun(env, run) && RunFits(run)
  }

  lemma BeginStep(env: Env, run: seq<Config>, t: nat, k: u64)
    requires env.Valid() && GoodRun(env, run) && t + 1 < |run| && run[t].phase.Unlocked?
    ensures ReaderInv(env, run, t + 1, Begin(env, run[t], k))
  {
    hide IsRun, RunFits, Inv, Fits, Find, Deliver;
    RunInv(env, run, t);
    Grows(env, run, t, t);
    MemoryMiss(env, run[t], k);
    if FindInMemory(run[t].state, k).Some? {
      assert Explains(env, run, t, k, Deliver(env, FindInMemory(run[t].state, k).value));
    }
  }

  /** A cell that is clear now was clear when the memtable missed. */
  lemma ClearCell(env: Env, run: seq<Config>, b: nat, t: nat, k: u64, p: byte)
    requires env.Valid() && GoodRun(env, run) && b <= t < |run| && MissedAt(run, b, k)
    requires p < env.shape.probes && |run[t].state.bits| == env.shape.cells
    requires run[t].state.bits[env.shape.Probe(k, p)] == 0
    ensures Explained(env, run, b, t, k, NotFound)
  {
    hide IsRun, RunFits, Inv, Fits, Find, Search, ChunkRow;
    RunInv(env, run, b);
    Grows(env, run, b, t);
    MemoryMiss(env, run[b], k);
    assert run[b].state.bits[env.shape.Probe(k, p)] == 0;
    assert !ProbablyContains(env.shape, run[b].state.bits, k);
    assert Explains(env, run, b, k, NotFound);
  }

  /** What the index finds at `t` is explained by an instant since the miss. */
  lemma LookUpExplained(env: Env, run: seq<Config>, b: nat, t: nat, k: u64)
    requires env.Valid() && GoodRun(env, run) && b <= t < |run| && MissedAt(run, b, k)
    requires run[t].phase.Unlocked?
    ensures match Search(run[t].state.tables, k)
            case None => Explained(env, run, b, t, k, NotFound)
            case Some(h) =>
              h.fileId < |run[t].history.batches|
              && Explained(env, run, b, t, k,
                   DeliverChunk(env, ChunkRow(DiskOf(env, run[t].history.batches), h)))
  {
    hide IsRun, RunFits, Inv, Fits, ChunkRow, Deliver, DiskNewest, Chunks, IndexFilesOf, Search, Tables, Get,
         Bits, MemStateOf;
    var batches := run[t].history.batches;
    RunInv(env, run, t);
    UnlockedState(env, run[t]);
    FitsSize(batches);
    HasOwnChunks(env, batches);
    FitsKey(batches, k);
    SearchFinds(batches, k, DiskOf(env, batches));
    var i := MissWitness(env, run, b, t, k);
    ExplainedBy(env, run, i, k);
    if Search(Tables(batches), k).Some? {
      HintInRange(batches, k);
    }
  }

  /** A reader that does not move keeps its invariant. */
  lemma StillHolds(env: Env, run: seq<Config>, t: nat, r: Reader)
    requires env.Valid() && GoodRun(env, run) && t + 1 < |run| && ReaderInv(env, run, t, r)
    ensures ReaderInv(env, run, t + 1, r)
  {
    hide IsRun, RunFits, Explained, DiskOf, ChunkRow, MissedAt;
    if r.Fetch? {
      var a, b := run[t].history.batches, run[t + 1].history.batches;
      Grows(env, run, t, t + 1);
      HasOwnChunks(env, b);
      ChunkStable(env, a, b, DiskOf(env, b), r.hint);
    }
  }

  lemma MoveStep(env: Env, run: seq<Config>, t: nat, id: nat, a: Action)
    requires env.Valid() && GoodRun(env, run) && t + 1 < |run|
    requires StepBy(env, run[t], run[t + 1], a)
    requires (a.StepTestCell? || a.StepLookUp? || a.StepFetch?) && a.id == id
    requires ReaderInv(env, run, t, run[t].readers[id])
    ensures ReaderInv(env, run, t + 1, Read(env, run[t], id, a))
  {
    hide IsRun, RunFits, Explained, DiskOf, ChunkRow, MissedAt, Inv, Search, DeliverChunk, Fits, Shape.Probe;
    RunInv(env, run, t);
    match run[t].readers[id]
    case Filter(k, p, b) =>
      if p != env.shape.probes && run[t].state.bits[env.shape.Probe(k, p)] == 0 {
        ClearCell(env, run, b, t, k, p);
      }
    case Lookup(k, b) =>
      LookUpExplained(env, run, b, t, k);
      SameHistory(env, run[t], run[t + 1], a);
    case Fetch(k, h, b, l) =>
      PhaseChunks(env, run[t]);
      ChunkStable(env, run[t].history.batches, run[t].history.batches, run[t].state.disk, h);
    case Finished(_, _, _, _) =>
  }

  lemma SameHistory(env: Env, c: Config, c': Config, a: Action)
    requires env.Valid() && StepBy(env, c, c', a)
    requires a.StepTestCell? || a.StepLookUp? || a.StepFetch?
    ensures c'.history == c.history
  {
  }

  /** A step moves at most one reader. */
  lemma StepReaders(env: Env, c: Config, c': Config, a: Action, id: nat)
    requires env.Valid() && StepBy(env, c, c', a) && id in c'.readers
    ensures if a.StartGet? && a.id == id then c.phase.Unlocked? && c'.readers[id] == Begin(env, c, a.key)
            else if (a.StepTestCell? || a.StepLookUp? || a.StepFetch?) && a.id == id
              then id in c.readers && c'.readers[id] == Read(env, c, id, a)
            else id in c.readers && c'.readers[id] == c.readers[id]
  {
    hide Begin, Read, WriteChunk, WriteBloom, WriteIndex, RegisterIndex, PutRow, ClearMem;
  }

  /** The invariant of every reader at every instant of every run. */
  lemma {:induction false} ReadersExplained(env: Env, run: seq<Config>, t: nat, id: nat)
    requires env.Valid() && GoodRun(env, run) && t < |run| && id in run[t].readers
    ensures ReaderInv(env, run, t, run[t].readers[id])
  {
    hide RunFits, ReaderInv, Begin, Read, Apply;
    if t > 0 {
      assert Step(env, run[t - 1], run[t - 1 + 1]);
      var a :| StepBy(env, run[t - 1], run[t], a);
      StepReaders(env, run[t - 1], run[t], a, id);
      if id in run[t - 1].readers {
        ReadersExplained(env, run, t - 1, id);
      }
      if a.StartGet? && a.id == id {
        BeginStep(env, run, t - 1, a.key);
      } else if (a.StepTestCell? || a.StepLookUp? || a.StepFetch?) && a.id == id {
        MoveStep(env, run, t - 1, id, a);
      } else {
        StillHolds(env, run, t - 1, run[t].readers[id]);
      }
    }
  }

  // ----- The theorems -----

  /** Every finished `get`, whatever writers and snapshots overlapped it, returned
      what an atomic `get` returns at an unlocked instant between its memtable
      lookup and its last look at shared memory. */
  lemma ReadsAreLinearizable(env: Env, run: seq<Config>, t: nat, id: nat)
    requires env.Valid() && IsRun(env, run) && RunFits(run) && t < |run|
    requires id in run[t].readers && run[t].readers[id].Finished?
    ensures var r := run[t].readers[id];
            r.begin <= r.look <= t
            && exists i: nat | r.begin <= i <= r.look :: Explains(env, run, i, r.key, r.result)
  {
    hide IsRun, RunFits, Explains;
    ReadersExplained(env, run, t, id);
  }

  /** A step a caller can check beforehand: a remove whose key's newest row on disk
      is not a put, a snapshot that does not lose MAX. */
  ghost predicate HarmlessBy(c: Config, a: Action) {
    match a
    case BeginRemove(k) => LiveOnly(DiskNewest(c.history.batches, k)).None?
    case StepRegister =>
      SentinelOnly(c.history.tail) ==>
        LiveOnly(DiskNewest(c.history.batches, MAX)) == Said(c.history, MAX)
    case _ => true
  }

  ghost predicate HarmlessRun(env: Env, run: seq<Config>)
    requires env.Valid()
  {
    forall i, a | 0 <= i < |run| - 1 && StepBy(env, run[i], run[i + 1], a) :: HarmlessBy(run[i], a)
  }

  lemma StepCoherent(env: Env, c: Config, c': Config, a: Action)
    requires env.Valid() && StepBy(env, c, c', a) && Coherent(c.history) && HarmlessBy(c, a)
    ensures Coherent(c'.history)
  {
    hide Coherent, DiskNewest, Said, Serialize, SerializeAll, Table, Encode, ChunkRow, Search, Deliver, Find;
    match a
    case BeginPut(k, v) => PutCoherent(c.history, ValueRow(env, k, env.compress(v).value));
    case BeginRemove(k) => RemoveCoherent(c.history, k);
    case StepRegister => CutCoherent(c.history);
    case _ =>
  }

  lemma {:induction false} RunCoherent(env: Env, run: seq<Config>, t: nat)
    requires env.Valid() && IsRun(env, run) && HarmlessRun(env, run) && t < |run|
    ensures Coherent(run[t].history)
  {
    hide Coherent, StepBy, HarmlessBy;
    if t == 0 {
      NewIsCoherent();
    } else {
      RunCoherent(env, run, t - 1);
      assert Step(env, run[t - 1], run[t - 1 + 1]);
      var a :| StepBy(env, run[t - 1], run[t - 1 + 1], a);
      StepCoherent(env, run[t - 1], run[t], a);
    }
  }

  lemma CoherentAt(h: History, k: u64)
    requires Coherent(h)
    ensures Seen(h, k) == Said(h, k)
  {
  }

  // ----- The operations of a run and its log -----

  lemma StepOps(env: Env, c: Config, c': Config, a: Action)
    requires env.Valid() && StepBy(env, c, c', a)
    ensures c.ops <= c'.ops
    ensures c.history.Logged() == RowsOf(env, c.ops) && AllStored(env, c.ops) ==>
              c'.history.Logged() == RowsOf(env, c'.ops) && AllStored(env, c'.ops)
  {
    hide Serialize, SerializeAll, Table, Encode, ChunkRow, Search, Deliver, Find, Flatten, RegisterIndex, RowsOf,
         WriteChunk, WriteBloom, WriteIndex, PutRow, Remove, ClearMem, Begin, Read;
    CutLogged(c.history);
    match a
    case BeginPut(k, v) =>
      AppendLogged(c.history, ValueRow(env, k, env.compress(v).value));
      RowsOfSnoc(env, c.ops, PutOp(k, v));
    case BeginRemove(k) =>
      AppendLogged(c.history, RemoveRow(k));
      RowsOfSnoc(env, c.ops, RemoveOp(k));
    case _ =>
  }

  /** At every instant the log holds one row for every put and remove begun. */
  lemma {:induction false} RunLogged(env: Env, run: seq<Config>, t: nat)
    requires env.Valid() && IsRun(env, run) && t < |run|
    ensures run[t].history.Logged() == RowsOf(env, run[t].ops) && AllStored(env, run[t].ops)
  {
    hide StepBy, RowsOf;
    if t == 0 {
      NothingLogged(env);
    } else {
      RunLogged(env, run, t - 1);
      assert Step(env, run[t - 1], run[t - 1 + 1]);
      var a :| StepBy(env, run[t - 1], run[t - 1 + 1], a);
      StepOps(env, run[t - 1], run[t], a);
    }
  }

  lemma NothingLogged(env: Env)
    ensures NEW_HISTORY.Logged() == RowsOf(env, [])
  {
    assert NEW_HISTORY.Logged() == [];
  }

  lemma {:induction false} OpsGrow(env: Env, run: seq<Config>, i: nat, j: nat)
    requires env.Valid() && IsRun(env, run) && i <= j < |run|
    ensures run[i].ops <= run[j].ops
    decreases j
  {
    hide StepBy, RowsOf;
    if i < j {
      OpsGrow(env, run, i, j - 1);
      assert Step(env, run[j - 1], run[j - 1 + 1]);
      var a :| StepBy(env, run[j - 1], run[j - 1 + 1], a);
      StepOps(env, run[j - 1], run[j], a);
    }
  }

  /** In a run of harmless steps every finished `get` returned what the finite map
      of the operations issued until some instant of its own duration answers. */
  lemma ReadsAgreeWithMap(env: Env, run: seq<Config>, t: nat, id: nat) returns (i: nat)
    requires env.Valid() && IsRun(env, run) && RunFits(run) && HarmlessRun(env, run) && t < |run|
    requires id in run[t].readers && run[t].readers[id].Finished?
    requires Lossless(env, run[t].ops)
    ensures var r := run[t].readers[id];
            r.begin <= i <= r.look <= t && run[i].phase.Unlocked?
            && r.result == Answer(Model(env, run[i].ops), r.key)
  {
    hide IsRun, RunFits, HarmlessRun, Coherent, Get, StateOf, Seen, Model, Fits, RowsOf, History.Logged;
    var r := run[t].readers[id];
    ReadsAreLinearizable(env, run, t, id);
    i :| r.begin <= i <= r.look && Explains(env, run, i, r.key, r.result);
    RunCoherent(env, run, i);
    ExplainedBy(env, run, i, r.key);
    CoherentAt(run[i].history, r.key);
    RunLogged(env, run, i);
    OpsGrow(env, run, i, t);
    ModelAnswers(env, run[i].ops, r.key);
  }

  // ----- Checksums -----

  /** Every live row carries the hash of its own data. */
  ghost predicate Sealed(env: Env, rows: seq<Row>) {
    forall i | 0 <= i < |rows| :: rows[i].Live() ==> rows[i].checksum == env.hash(rows[i].value)
  }

  lemma StepSealed(env: Env, c: Config, c': Config, a: Action)
    requires env.Valid() && StepBy(env, c, c', a) && Sealed(env, c.history.Logged())
    ensures Sealed(env, c'.history.Logged())
  {
    hide Serialize, SerializeAll, Table, Encode, ChunkRow, Search, Deliver, Find, Flatten;
    CutLogged(c.history);
    match a
    case BeginPut(k, v) => AppendLogged(c.history, ValueRow(env, k, env.compress(v).value));
    case BeginRemove(k) => AppendLogged(c.history, RemoveRow(k));
    case _ =>
  }

  lemma AppendLogged(h: History, row: Row)
    ensures h.Append(row).Logged() == h.Logged() + [row]
  {
  }

  lemma CutLogged(h: History)
    ensures h.Cut().Logged() == h.Logged()
  {
    assert h.Cut().batches[..|h.batches|] == h.batches;
  }

  /** In every reachable state every live logged row is sealed. */
  lemma {:induction false} RunSealed(env: Env, run: seq<Config>, t: nat)
    requires env.Valid() && IsRun(env, run) && t < |run|
    ensures Sealed(env, run[t].history.Logged())
  {
    hide StepBy, Sealed;
    if t == 0 {
      NothingSealed(env);
    } else {
      RunSealed(env, run, t - 1);
      assert Step(env, run[t - 1], run[t - 1 + 1]);
      var a :| StepBy(env, run[t - 1], run[t - 1 + 1], a);
      StepSealed(env, run[t - 1], run[t], a);
    }
  }

  lemma NothingSealed(env: Env)
    ensures Sealed(env, NEW_HISTORY.Logged())
  {
    assert NEW_HISTORY.Logged() == [];
  }

  /** So no `get` of any run takes the corrupted-data branch or decodes garbage,
      whatever it overlaps. */
  lemma NoReadIsCorrupted(env: Env, run: seq<Config>, t: nat, id: nat)
    requires env.Valid() && IsRun(env, run) && RunFits(run) && t < |run|
    requires id in run[t].readers && run[t].readers[id].Finished?
    ensures !run[t].readers[id].result.ChecksumError? && !run[t].readers[id].result.UndefinedRead?
  {
    hide IsRun, RunFits, Get, StateOf, Seen, Fits, History.Logged;
    var r := run[t].readers[id];
    ReadsAreLinearizable(env, run, t, id);
    var i: nat :| r.begin <= i <= r.look && Explains(env, run, i, r.key, r.result);
    ExplainedBy(env, run, i, r.key);
    RunSealed(env, run, i);
    SeenInLog(run[i].history, r.key);
  }
}
