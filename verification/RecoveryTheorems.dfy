/** What reopening guarantees, for every run of the step machine. */
module RecoveryTheorems {
  import opened Wrappers
  import opened Bytes
  import opened Rows
  import opened Records
  import opened MemTableSpec
  import opened SSTableIndexes
  import opened Indexes
  import opened BloomFilters
  import opened MemTables
  import opened FileNames
  import opened EngineSpec
  import opened EngineFacts
  import opened WriteAheadLogs
  import opened Histories
  import opened Reads
  import opened Models
  import opened Coherence
  import opened Machine
  import opened Concurrency
  import opened Recovery

  // ----- Clean close -----

  /** The directory a cleanly closed first session leaves, as a scan finds it. */
  ghost predicate ClosedDirectory(env: Env, h: History, dir: Directory)
    requires env.Valid()
  {
    && dir.wal == Some(SerializeAll(h.Logged()))
    && dir.disk == StateOf(env, h).disk
    && Scanned(dir)
  }

  /** The directory opens, and `get` of the key then gives `r`. */
  ghost predicate ReadsAs(env: Env, dir: Directory, k: u64, r: GetResult)
    requires env.Valid()
  {
    Opens(env, dir) && Get(env, OpenEngine(env, dir).state, k) == r
  }

  ghost predicate Opens(env: Env, dir: Directory) {
    (forall i | i in dir.order :: i in dir.disk.indexes) && OpenEngine(env, dir).Opened?
  }

  function Idle(s: State, h: History): Config {
    Config(s, Unlocked, map[], h, [], 0)
  }

  lemma ClosedImage(env: Env, h: History, dir: Directory)
    requires env.Valid() && ClosedDirectory(env, h, dir)
    ensures Inv(env, Idle(StateOf(env, h), h))
    ensures Image(Idle(StateOf(env, h), h), |h.Logged()|, dir)
  {
    hide SerializeAll, Bits, Tables, Chunks, IndexFilesOf, MemOf;
    TotalSizeConcat(Flatten(h.batches), h.tail);
    assert h.Logged()[..|h.Logged()|] == h.Logged();
  }

  lemma ClosedFilter(env: Env, h: History, dir: Directory, k: u64)
    requires env.Valid() && ClosedDirectory(env, h, dir)
    ensures Passes(env, dir.disk.bloom, k) <==> ProbablyContains(env.shape, Bits(env.shape, h.batches), k)
  {
    hide SerializeAll, Tables, Chunks, IndexFilesOf, MemOf, AddRows, ProbablyContains;
    if h.batches != [] {
      DumpLoad(Empty(env.shape), Bits(env.shape, h.batches));
    }
  }

  /** The exact answers after closing and reopening, for any number of segments. */
  lemma ClosedGet(env: Env, h: History, dir: Directory, k: u64)
    requires env.Valid() && Fits(h.batches) && ClosedDirectory(env, h, dir) && h.Logged() != []
    ensures InRange(dir.order, |h.batches|) && PathOrder(dir.order, |h.batches|)
    ensures Opens(env, dir)
    ensures ReadsAs(env, dir, k,
              RecoveredAnswer(env, h.Logged(), Listed(h.batches, dir.order), dir.disk.bloom, k))
  {
    hide StateOf, Get, Image, Inv, OpenEngine, ClosedDirectory, RecoveredAnswer, HintsFit, History.Logged;
    var c, n := Idle(StateOf(env, h), h), |h.Logged()|;
    ClosedImage(env, h, dir);
    ImageOrder(env, c, n, dir);
    RecoveredGet(env, c, n, dir, k);
    ImageScanned(c, n, dir);
    assert h.Logged()[..n] == h.Logged();
  }

  lemma ImageScanned(c: Config, d: nat, dir: Directory)
    requires Image(c, d, dir)
    ensures forall i | i in dir.order :: i in dir.disk.indexes
  {
  }

  /** Key 0 reads garbage: it has no value in the log, but the filter lets it
      through, and an empty segment is newer than every segment that holds it. */
  ghost predicate ZeroGarbled(env: Env, h: History, k: u64)
    requires env.Valid()
  {
    && k == 0 && LiveOnly(Newest(h.Logged(), 0)).None?
    && ProbablyContains(env.shape, Bits(env.shape, h.batches), 0)
    && ZeroForged(h.batches)
  }

  /** The last batch that mentions MAX holds nothing else, so its segment lost the
      value, and the older segments do not answer the same. */
  ghost predicate LostMaxAt(env: Env, batches: seq<seq<Row>>, i: nat) {
    && LastMaxAt(batches, i) && SentinelOnly(batches[i]) && LiveOnly(Newest(batches[i], MAX)).Some?
    && Deliver(env, Newest(batches[i], MAX).value)
       != DeliverSeen(env, LiveOnly(DiskNewest(batches[..i], MAX)))
  }

  ghost predicate LastMaxAt(batches: seq<seq<Row>>, i: nat) {
    && i < |batches| && Newest(batches[i], MAX).Some?
    && forall j | i < j < |batches| :: Newest(batches[j], MAX).None?
  }

  /** Replay brings back a value of MAX that a snapshot had lost. */
  ghost predicate MaxReturns(env: Env, h: History, k: u64) {
    k == MAX && Newest(h.tail, MAX).None? && exists i: nat :: LostMaxAt(env, h.batches, i)
  }

  lemma {:induction false} MaxAt(batches: seq<seq<Row>>, i: nat)
    requires LastMaxAt(batches, i)
    ensures Newest(Flatten(batches), MAX) == Newest(batches[i], MAX)
    ensures DiskNewest(batches, MAX)
         == if SentinelOnly(batches[i]) then DiskNewest(batches[..i], MAX) else Newest(batches[i], MAX)
  {
    hide DiskNewest, SentinelOnly, Newest;
    var n := |batches| - 1;
    assert batches[..n] + [batches[n]] == batches;
    NewestOfConcat(Flatten(batches[..n]), batches[n], MAX);
    DiskNewestIs(batches[..n], batches[n], MAX);
    if i < n {
      MaxAt(batches[..n], i);
      assert batches[..n][..i] == batches[..i];
    }
  }

  lemma {:induction false} LastMax(batches: seq<seq<Row>>) returns (i: nat)
    requires Newest(Flatten(batches), MAX).Some?
    ensures LastMaxAt(batches, i)
  {
    hide Newest;
    NothingNewest(MAX);
    var n := |batches| - 1;
    NewestOfConcat(Flatten(batches[..n]), batches[n], MAX);
    if Newest(batches[n], MAX).Some? {
      i := n;
    } else {
      i := LastMax(batches[..n]);
      forall j | i < j < |batches| ensures Newest(batches[j], MAX).None? {
        assert j < n ==> batches[..n][j] == batches[j];
      }
    }
  }

  /** The log's last word on MAX and what the segments answer differ in effect
      exactly when a snapshot lost it. */
  lemma MaxDiffers(env: Env, batches: seq<seq<Row>>)
    ensures (exists i: nat :: LostMaxAt(env, batches, i))
       <==> LiveOnly(Newest(Flatten(batches), MAX)).Some?
            && Deliver(env, Newest(Flatten(batches), MAX).value)
               != DeliverSeen(env, LiveOnly(DiskNewest(batches, MAX)))
  {
    hide Deliver, SentinelOnly, DiskNewest;
    if i: nat :| LostMaxAt(env, batches, i) {
      MaxAt(batches, i);
    }
    if LiveOnly(Newest(Flatten(batches), MAX)).Some?
       && Deliver(env, Newest(Flatten(batches), MAX).value)
          != DeliverSeen(env, LiveOnly(DiskNewest(batches, MAX))) {
      var i := LastMax(batches);
      MaxAt(batches, i);
      assert LostMaxAt(env, batches, i);
    }
  }

  lemma SameAnswer(env: Env, h: History, dir: Directory, k: u64)
    requires env.Valid() && ClosedDirectory(env, h, dir)
    ensures RecoveredAnswer(env, h.Logged(), h.batches, dir.disk.bloom, k) == DeliverSeen(env, Seen(h, k))
       <==> !ZeroGarbled(env, h, k) && !MaxReturns(env, h, k)
  {
    hide ClosedDirectory, Passes, ProbablyContains, DiskNewest, SentinelOnly, ZeroForged, Bits;
    SaidSplits(h, k);
    ClosedFilter(env, h, dir, k);
    if DiskNewest(h.batches, k).Some? {
      FilterPasses(env.shape, h.batches, k);
    }
    if k == MAX {
      MaxDiffers(env, h.batches);
    } else {
      DiskIsFlat(h.batches, k);
    }
  }

  /** Up to ten segments: closing and reopening changes the answer for a key exactly
      when key 0 reads garbage or a lost value of MAX returns. So it changes no other
      key, whatever was removed when, although replay brings every snapshotted row
      back into the memtable; and it changes nothing when no segment is empty. */
  lemma ReopenIsInvisible(env: Env, h: History, dir: Directory, k: u64)
    requires env.Valid() && Fits(h.batches) && ClosedDirectory(env, h, dir)
    requires h.Logged() != [] && |h.batches| <= 10
    ensures Opens(env, dir)
    ensures ReadsAs(env, dir, k, Get(env, StateOf(env, h), k))
       <==> !ZeroGarbled(env, h, k) && !MaxReturns(env, h, k)
    ensures 0 < k < MAX || (forall i | 0 <= i < |h.batches| :: !Vanishes(h.batches[i])) ==>
              !ZeroGarbled(env, h, k) && !MaxReturns(env, h, k)
  {
    hide StateOf, Get, OpenEngine, DiskNewest, HintsFit, Deliver, RecoveredAnswer, History.Logged,
         ProbablyContains, Bits;
    ClosedGet(env, h, dir, k);
    LiveListRestored(h.batches, dir.order);
    FitsKey(h.batches, k);
    GetMeaning(env, h, k);
    SameAnswer(env, h, dir, k);
  }

  /** A directory in which nothing was ever written cannot be reopened: the replay
      decodes an uninitialised row. */
  lemma ReopenNeedsARow(env: Env, h: History, dir: Directory)
    requires env.Valid() && Fits(h.batches) && ClosedDirectory(env, h, dir)
    ensures OpenEngine(env, dir).Opened? <==> h.Logged() != []
    ensures OpenEngine(env, dir).OpenUndefined? <==> h.Logged() == []
  {
    hide StateOf, Image, Inv, OpenEngine, ClosedDirectory, HintsFit;
    var c, n := Idle(StateOf(env, h), h), |h.Logged()|;
    ClosedImage(env, h, dir);
    ImageOrder(env, c, n, dir);
    OpenImage(env, c, n, dir);
  }

  /** Replaying the log of a session that took no snapshot rebuilds the memtable
      entry for entry, counters included; only the tracked size starts at 0. */
  lemma ReplayRebuildsMemTable(h: History)
    requires h.batches == [] && h.tail != []
    ensures LoadRows(Streams.Open(MemStateOf(h).log.value.written)) == Loaded(h.tail)
    ensures NEW_MEMTABLE.Restore(h.tail) == MemStateOf(h).(size := 0, log := None)
  {
    hide LoadRows, SerializeAll, Insert, TotalSize;
    assert Flatten(h.batches) == [] && h.Logged() == h.tail;
    StreamRoundTrip(h.tail);
  }

  /** The first snapshot of a reopened engine starts over at segment 0 and, exactly when
      the closed session had a segment, throws. Either way it has emptied the memtable,
      flushed the log and written all three files by then, segment 0's over the old
      ones; the new table is the newest row of every key ever logged. */
  lemma SnapshotAfterReopenThrows(env: Env, h: History, dir: Directory)
    requires env.Valid() && Fits(h.batches) && ClosedDirectory(env, h, dir) && h.Logged() != []
    ensures Opens(env, dir)
    ensures var s := OpenEngine(env, dir).state;
            && Table(s) == TableOf(h.Logged()) && s.segment == 0 && s.mem.log == Some(Log([], 0))
            && (Snapshot(env, s).Thrown? <==> h.batches != [])
            && Snapshotted(env, s, Snapshot(env, s).state, h.batches != [])
  {
    hide StateOf, Image, Inv, OpenEngine, ClosedDirectory, HintsFit, SerializeAll, Snapshot, Snapshotted,
         Register, ListOf, MemOf, LoadFilter;
    var c, n := Idle(StateOf(env, h), h), |h.Logged()|;
    ClosedImage(env, h, dir);
    ImageOrder(env, c, n, dir);
    ImageScanned(c, n, dir);
    OpenImage(env, c, n, dir);
    ListIds(h.batches, dir.order, 0);
    assert h.Logged()[..n] == h.Logged();
    SnapshotAnywhere(env, OpenEngine(env, dir).state);
    SomeId(OpenEngine(env, dir).state.tables);
  }

  lemma SomeId(tables: seq<TableIndex>)
    ensures Indexed(tables, 0) <==> exists i | 0 <= i < |tables| :: tables[i].fileId == 0
  {
  }

  // ----- Crash -----

  /** Every remove since the last snapshot was issued without a shadowed put. */
  ghost predicate TailHarmless(h: History) {
    forall i | 0 <= i < |h.tail| :: !h.tail[i].Live() ==> LiveOnly(DiskNewest(h.batches, h.tail[i].key)).None?
  }

  lemma StepTailHarmless(env: Env, c: Config, c': Config, a: Action)
    requires env.Valid() && StepBy(env, c, c', a) && HarmlessBy(c, a) && TailHarmless(c.history)
    ensures TailHarmless(c'.history)
  {
    hide DiskNewest, Said, Serialize, SerializeAll, Table, Encode, ChunkRow, Search, Deliver, Find;
  }

  lemma {:induction false} RunTailHarmless(env: Env, run: seq<Config>, t: nat)
    requires env.Valid() && IsRun(env, run) && HarmlessRun(env, run) && t < |run|
    ensures TailHarmless(run[t].history)
  {
    hide StepBy, HarmlessBy, DiskNewest;
    if t > 0 {
      RunTailHarmless(env, run, t - 1);
      assert Step(env, run[t - 1], run[t - 1 + 1]);
      var a :| StepBy(env, run[t - 1], run[t - 1 + 1], a);
      StepTailHarmless(env, run[t - 1], run[t], a);
    }
  }

  lemma TailRemove(h: History, k: u64)
    requires TailHarmless(h) && Newest(h.tail, k).Some? && !Newest(h.tail, k).value.Live()
    ensures LiveOnly(DiskNewest(h.batches, k)).None?
  {
    hide DiskNewest;
    var i :| 0 <= i < |h.tail| && h.tail[i] == Newest(h.tail, k).value;
  }

  /** A key whose newest segment row is not live is live in no segment: in a run of
      harmless steps no value is ever buried under a tombstone. */
  ghost predicate Unburied(batches: seq<seq<Row>>) {
    forall i, k | 0 <= i < |batches| && LiveOnly(First(TableOf(batches[i]), k)).Some? ::
      LiveOnly(DiskNewest(batches, k)).Some?
  }

  /** The segments answer like the batches they were written from, MAX included. */
  ghost predicate Settled(batches: seq<seq<Row>>) {
    forall k :: LiveOnly(DiskNewest(batches, k)) == LiveOnly(Newest(Flatten(batches), k))
  }

  lemma CutUnburied(h: History)
    requires Unburied(h.batches) && TailHarmless(h)
    ensures Unburied(h.Cut().batches)
  {
    hide TableOf, DiskNewest, TailHarmless;
    var c, n := h.Cut().batches, |h.batches|;
    assert forall i | 0 <= i < n :: c[i] == h.batches[i];
    forall i, k | 0 <= i < |c| && LiveOnly(First(TableOf(c[i]), k)).Some?
      ensures LiveOnly(DiskNewest(c, k)).Some?
    {
      DiskNewestNext(h.batches, h.tail, k);
      TableLookup(h.tail, k);
      if i < n && First(TableOf(h.tail), k).Some? && !First(TableOf(h.tail), k).value.Live() {
        TailRemove(h, k);
      }
    }
  }

  lemma CutSettled(h: History)
    requires Coherent(h.Cut())
    ensures Settled(h.Cut().batches)
  {
    hide DiskNewest;
    var c := h.Cut();
    assert c.Logged() == Flatten(c.batches) + [] == Flatten(c.batches);
    forall k ensures LiveOnly(DiskNewest(c.batches, k)) == LiveOnly(Newest(Flatten(c.batches), k)) {
      assert Seen(c, k) == Said(c, k);
    }
  }

  lemma NothingBuried()
    ensures Unburied([]) && Settled([])
  {
  }

  lemma {:induction false} RunUnburied(env: Env, run: seq<Config>, t: nat)
    requires env.Valid() && IsRun(env, run) && HarmlessRun(env, run) && t < |run|
    ensures Unburied(run[t].history.batches) && Settled(run[t].history.batches)
  {
    hide Step, Coherent, Unburied, Settled, TailHarmless, HarmlessRun, StepBy;
    if t == 0 {
      NothingBuried();
    } else {
      RunUnburied(env, run, t - 1);
      assert Step(env, run[t - 1], run[t - 1 + 1]);
      StepFacts(env, run[t - 1], run[t]);
      if run[t].history.batches != run[t - 1].history.batches {
        RunTailHarmless(env, run, t - 1);
        CutUnburied(run[t - 1].history);
        RunCoherent(env, run, t);
        CutSettled(run[t - 1].history);
      }
    }
  }

  /** If the last surviving word on a key is not a put, no registered segment holds
      a live row for it. */
  lemma RemovedOnDisk(c: Config, d: nat, k: u64)
    requires TailHarmless(c.history) && Unburied(c.history.batches) && Settled(c.history.batches)
    requires d <= |Logged(c)| && Flatten(OnDisk(c)) <= Logged(c)[..d]
    requires LiveOnly(Newest(Logged(c)[..d], k)).None?
    ensures LiveOnly(DiskNewest(OnDisk(c), k)).None? && Unburied(OnDisk(c))
  {
    hide DiskNewest, TailHarmless, Unburied, Settled, TableOf, SentinelOnly;
    var h := c.history;
    CutUnburied(h);
    if c.phase.IndexWritten? {
      FlattenCut(h);
      assert Logged(c)[..d] == h.Logged();
      RemovedInCut(h, k);
    } else {
      RemovedInTail(h, d, k);
    }
  }

  lemma RemovedInCut(h: History, k: u64)
    requires TailHarmless(h) && Settled(h.batches) && LiveOnly(Newest(h.Logged(), k)).None?
    ensures LiveOnly(DiskNewest(h.Cut().batches, k)).None?
  {
    hide DiskNewest, TailHarmless, SentinelOnly, History.Logged;
    SaidSplits(h, k);
    DiskNewestIs(h.batches, h.tail, k);
    if Newest(h.tail, k).Some? {
      TailRemove(h, k);
    }
  }

  lemma RemovedInTail(h: History, d: nat, k: u64)
    requires TailHarmless(h) && Settled(h.batches)
    requires d <= |h.Logged()| && Flatten(h.batches) <= h.Logged()[..d]
    requires LiveOnly(Newest(h.Logged()[..d], k)).None?
    ensures LiveOnly(DiskNewest(h.batches, k)).None?
  {
    hide DiskNewest, TailHarmless, Newest, Flatten;
    var part, rows := Flatten(h.batches), h.Logged()[..d];
    var rest := rows[|part|..];
    PrefixNewest(part, rows, k);
    if Newest(rest, k).Some? {
      assert rest == h.tail[..|rest|];
      var i :| 0 <= i < |rest| && rest[i] == Newest(rest, k).value;
      TailHarmlessAt(h, i);
    }
  }

  lemma TailHarmlessAt(h: History, i: nat)
    requires TailHarmless(h) && i < |h.tail| && !h.tail[i].Live()
    ensures LiveOnly(DiskNewest(h.batches, h.tail[i].key)).None?
  {
  }

  /** Then no order of loading the segments makes it live. */
  lemma {:induction false} NeverLive(batches: seq<seq<Row>>, order: seq<nat>, n: nat, k: u64)
    requires Unburied(batches) && LiveOnly(DiskNewest(batches, k)).None?
    requires InRange(order, |batches|) && n <= |order|
    ensures LiveOnly(DiskNewest(Listed(batches, order)[..n], k)).None?
  {
    hide TableOf;
    if n > 0 {
      var listed := Listed(batches, order);
      NeverLive(batches, order, n - 1, k);
      assert listed[..n][..n - 1] == listed[..n - 1];
      assert listed[..n][n - 1] == batches[order[n - 1]];
    }
  }

  /** Whatever a run did, wherever between two file writes it stops, whatever
      record-aligned part of the log beyond the flushed bytes survives, whatever is
      left of the bloom file and however many segments there are: exactly what a read
      gives after reopening, and exactly when that is what the finite map of the
      surviving operations answers. */
  lemma CrashAnswersExactly(env: Env, run: seq<Config>, t: nat, d: nat, dir: Directory, k: u64)
    requires env.Valid() && IsRun(env, run) && RunFits(run) && t < |run|
    requires Image(run[t], d, dir) && d > 0 && Fits(OnDisk(run[t])) && Lossless(env, run[t].ops)
    ensures d <= |run[t].ops| && InRange(dir.order, |OnDisk(run[t])|)
    ensures var m, listed := Model(env, run[t].ops[..d]), Listed(OnDisk(run[t]), dir.order);
            && ReadsAs(env, dir, k,
                 if k in m then Found(m[k])
                 else if !Passes(env, dir.disk.bloom, k) then NotFound
                 else if k == 0 && ZeroForged(listed) then UndefinedRead
                 else DeliverSeen(env, LiveOnly(DiskNewest(listed, k))))
            && (ReadsAs(env, dir, k, Answer(m, k)) <==>
                 k in m || !Passes(env, dir.disk.bloom, k)
                 || (LiveOnly(DiskNewest(listed, k)).None? && !(k == 0 && ZeroForged(listed))))
  {
    hide IsRun, RunFits, Image, Inv, OpenEngine, Get, Fits, Model, RowsOf, OnDisk, Lossless, Passes, ZeroForged,
         DiskNewest;
    var c := run[t];
    RunInv(env, run, t);
    RunLogged(env, run, t);
    ImageParts(c, d, dir);
    ImageScanned(c, d, dir);
    RowsOfPrefix(env, c.ops, |c.ops|);
    RowsOfPrefix(env, c.ops, d);
    LosslessPrefix(env, c.ops, d);
    RecoveredGet(env, c, d, dir, k);
    ModelAnswers(env, c.ops[..d], k);
  }

  lemma LosslessPrefix(env: Env, ops: seq<Op>, d: nat)
    requires Lossless(env, ops) && d <= |ops|
    ensures Lossless(env, ops[..d])
  {
  }

  /** A run of harmless steps gives the finite map's answer for every key: no value is
      buried, so none can come back. Only key 0 can read garbage, exactly when no
      surviving value answers for it, the filter lets it through, and an empty segment
      is loaded after every segment that holds it. */
  lemma CrashRecoversMap(env: Env, run: seq<Config>, t: nat, d: nat, dir: Directory, k: u64)
    requires env.Valid() && IsRun(env, run) && RunFits(run) && HarmlessRun(env, run) && t < |run|
    requires Image(run[t], d, dir) && d > 0 && Fits(OnDisk(run[t])) && Lossless(env, run[t].ops)
    ensures d <= |run[t].ops| && InRange(dir.order, |OnDisk(run[t])|)
    ensures var m, listed := Model(env, run[t].ops[..d]), Listed(OnDisk(run[t]), dir.order);
            ReadsAs(env, dir, k,
              if k !in m && ReadsForged(env, listed, dir.disk.bloom, k) then UndefinedRead else Answer(m, k))
  {
    hide IsRun, RunFits, HarmlessRun, Image, Inv, Fits, TailHarmless, Unburied, Settled, ReadsAs,
         Model, RowsOf, OnDisk, Passes, ZeroForged, DiskNewest, Lossless;
    var c := run[t];
    CrashAnswersExactly(env, run, t, d, dir, k);
    if k !in Model(env, c.ops[..d]) {
      RunInv(env, run, t);
      RunLogged(env, run, t);
      ImageParts(c, d, dir);
      RowsOfPrefix(env, c.ops, d);
      LosslessPrefix(env, c.ops, d);
      ModelAnswers(env, c.ops[..d], k);
      DurablePart(env, c, d, dir);
      RunTailHarmless(env, run, t);
      RunUnburied(env, run, t);
      RemovedOnDisk(c, d, k);
      var listed := Listed(OnDisk(c), dir.order);
      NeverLive(OnDisk(c), dir.order, |listed|, k);
      assert listed[..|listed|] == listed;
    }
  }

  /** A crash loses nothing that a snapshot had registered. */
  lemma CrashKeepsSegments(env: Env, run: seq<Config>, t: nat, d: nat, dir: Directory)
    requires env.Valid() && IsRun(env, run) && RunFits(run) && t < |run| && Image(run[t], d, dir)
    ensures Flatten(OnDisk(run[t])) <= Logged(run[t])[..d]
    ensures dir.disk.indexes == IndexFilesOf(env, OnDisk(run[t]))
    ensures HasChunks(dir.disk, OnDisk(run[t]))
    ensures Covers(env.shape, run[t].state.disk.bloom, OnDisk(run[t]))
  {
    hide IsRun, RunFits, Image, Inv, Covers, IndexFile, OnDisk, Logged, Fits, SerializeAll, TableOf;
    RunInv(env, run, t);
    ImageParts(run[t], d, dir);
    ImageIndexes(run[t], d, dir);
    DurablePart(env, run[t], d, dir);
    DiskFacts(env, run[t]);
  }

  lemma ImageIndexes(c: Config, d: nat, dir: Directory)
    requires Image(c, d, dir)
    ensures dir.disk.indexes == c.state.disk.indexes
  {
  }
}
