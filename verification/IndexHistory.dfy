/** What the index answers, in terms of the calls that were made on it. */
module IndexHistory {
  import opened Wrappers
  import opened Bytes
  import opened SSTableIndexes
  import opened Indexes

  datatype Call = InsertCall(key: u64, hint: SearchHint) | UpdateCall(table: TableIndex) {

    function Id(): u32 {
      if InsertCall? then hint.fileId else table.fileId
    }
  }

  /** One call on the list; an update of a known id throws and changes nothing. */
  function Step(tables: seq<TableIndex>, call: Call): seq<TableIndex> {
    if call.InsertCall? then InsertHint(tables, call.key, call.hint)
    else if Indexed(tables, call.table.fileId) then tables
    else [call.table] + tables
  }

  function Run(calls: seq<Call>): seq<TableIndex> {
    if calls == [] then [] else Step(Run(calls[..|calls| - 1]), calls[|calls| - 1])
  }

  // ----- The reference: no list, only the calls -----

  /** When the id was first mentioned. */
  function Registered(calls: seq<Call>, id: u32): Option<nat> {
    if calls == [] then None
    else
      var n := |calls| - 1;
      var before := Registered(calls[..n], id);
      if before.Some? then before else if calls[n].Id() == id then Some(n) else None
  }

  /** What was last stored for a key under an id: an insert always stores, an
      update only if it is the id's registration. */
  function Stored(calls: seq<Call>, id: u32, k: u64): Option<Hint> {
    if calls == [] then None
    else
      var n := |calls| - 1;
      var last, before := calls[n], Stored(calls[..n], id, k);
      if last.Id() != id then before
      else if last.InsertCall? then
        if last.key == k then Some(Hint(last.hint.offset, last.hint.size)) else before
      else if Registered(calls[..n], id).None? && k in last.table.hints then Some(last.table.hints[k])
      else before
  }

  // ----- The list against the reference -----

  ghost predicate Agrees(t: TableIndex, calls: seq<Call>) {
    && Registered(calls, t.fileId).Some?
    && forall k :: Stored(calls, t.fileId, k) == if k in t.hints then Some(t.hints[k]) else None
  }

  ghost predicate Tracks(tables: seq<TableIndex>, calls: seq<Call>) {
    AllAgree(tables, calls) && NewestFirst(tables, calls) && Complete(tables, calls)
  }

  ghost predicate AllAgree(tables: seq<TableIndex>, calls: seq<Call>) {
    forall i | 0 <= i < |tables| :: Agrees(tables[i], calls)
  }

  /** Every table's id is registered, and later registrations stand in front. */
  ghost predicate NewestFirst(tables: seq<TableIndex>, calls: seq<Call>) {
    && (forall i | 0 <= i < |tables| :: Registered(calls, tables[i].fileId).Some?)
    && (forall i, j | 0 <= i < j < |tables| ::
          Registered(calls, tables[i].fileId).value > Registered(calls, tables[j].fileId).value)
  }

  ghost predicate Complete(tables: seq<TableIndex>, calls: seq<Call>) {
    forall id :: Registered(calls, id).Some? ==> Indexed(tables, id)
  }

  lemma {:induction false} RegisteredBefore(calls: seq<Call>, id: u32)
    ensures Registered(calls, id).Some? ==> Registered(calls, id).value < |calls|
    ensures Registered(calls, id).None? ==> forall k :: Stored(calls, id, k).None?
  {
    if calls != [] {
      RegisteredBefore(calls[..|calls| - 1], id);
    }
  }

  lemma AmendKeeps(tables: seq<TableIndex>, id: u32, k: u64, h: Hint)
    requires Indexed(tables, id)
    requires forall i, j | 0 <= i < j < |tables| :: tables[i].fileId != tables[j].fileId
    ensures var r := Amend(tables, id, k, h);
            forall i | 0 <= i < |tables| ::
              r[i] == if tables[i].fileId == id then tables[i].(hints := tables[i].hints[k := h])
                      else tables[i]
  {
    var i :| 0 <= i < |tables| && tables[i].fileId == id;
    AmendAt(tables, i, k, h);
  }

  lemma {:induction false} RunTracks(calls: seq<Call>)
    ensures Tracks(Run(calls), calls)
  {
    if calls != [] {
      var n := |calls| - 1;
      var before, last := calls[..n], calls[n];
      RunTracks(before);
      StepTracks(Run(before), before, last);
      assert before + [last] == calls;
    }
  }

  /** How one more call changes the reference. */
  lemma Extended(before: seq<Call>, last: Call, id: u32, k: u64)
    ensures Registered(before + [last], id)
         == if Registered(before, id).Some? then Registered(before, id)
            else if last.Id() == id then Some(|before|) else None
    ensures Stored(before + [last], id, k)
         == if last.Id() != id then Stored(before, id, k)
            else if last.InsertCall? && last.key == k then Some(Hint(last.hint.offset, last.hint.size))
            else if last.UpdateCall? && Registered(before, id).None? && k in last.table.hints
              then Some(last.table.hints[k])
            else Stored(before, id, k)
  {
    var calls := before + [last];
    assert calls[..|calls| - 1] == before && calls[|calls| - 1] == last;
  }

  /** A table the call does not concern agrees with the reference as before. */
  lemma OthersAgree(t: TableIndex, before: seq<Call>, last: Call)
    requires Agrees(t, before) && last.Id() != t.fileId
    ensures Agrees(t, before + [last])
    ensures Registered(before + [last], t.fileId) == Registered(before, t.fileId)
  {
    forall k ensures Stored(before + [last], t.fileId, k) == Stored(before, t.fileId, k) {
      Extended(before, last, t.fileId, k);
    }
    Extended(before, last, t.fileId, 0);
  }

  lemma KnownAgrees(t: TableIndex, before: seq<Call>, last: Call)
    requires Agrees(t, before) && last.Id() == t.fileId
    ensures Registered(before + [last], t.fileId) == Registered(before, t.fileId)
    ensures Agrees(
      if last.UpdateCall? then t
      else t.(hints := t.hints[last.key := Hint(last.hint.offset, last.hint.size)]), before + [last])
  {
    var t' := if last.UpdateCall? then t
              else t.(hints := t.hints[last.key := Hint(last.hint.offset, last.hint.size)]);
    forall k ensures Stored(before + [last], t.fileId, k) == if k in t'.hints then Some(t'.hints[k]) else None {
      Extended(before, last, t.fileId, k);
    }
    Extended(before, last, t.fileId, 0);
  }

  lemma RegisteringAgrees(before: seq<Call>, last: Call)
    requires Registered(before, last.Id()).None?
    ensures Registered(before + [last], last.Id()) == Some(|before|)
    ensures Agrees(
      if last.UpdateCall? then last.table
      else TableIndex(last.hint.fileId, map[last.key := Hint(last.hint.offset, last.hint.size)]),
      before + [last])
  {
    RegisteredBefore(before, last.Id());
    forall k {
      Extended(before, last, last.Id(), k);
    }
  }

  lemma StepTracks(tables: seq<TableIndex>, before: seq<Call>, last: Call)
    requires Tracks(tables, before)
    ensures Tracks(Step(tables, last), before + [last])
  {
    hide Registered, Stored, Step, Agrees;
    if Registered(before, last.Id()).Some? {
      StepKnown(tables, before, last);
    } else {
      NotIndexed(tables, before, last.Id());
      StepNew(tables, before, last);
    }
  }

  /** A call on a known id registers nothing. */
  lemma RegistersNothing(before: seq<Call>, last: Call, id: u32)
    requires Registered(before, last.Id()).Some?
    ensures Registered(before + [last], id) == Registered(before, id)
  {
    Extended(before, last, id, 0);
  }

  lemma StepKnown(tables: seq<TableIndex>, before: seq<Call>, last: Call)
    requires Tracks(tables, before) && Registered(before, last.Id()).Some?
    ensures Tracks(Step(tables, last), before + [last])
  {
    hide Registered, Stored, Agrees, Indexed;
    var calls, id := before + [last], last.Id();
    var r := Step(tables, last);
    assert Indexed(tables, id);
    KnownInPlace(tables, before, last);
    forall i | 0 <= i < |r| ensures Agrees(r[i], calls) {
      if tables[i].fileId == id {
        KnownAgrees(tables[i], before, last);
      } else {
        OthersAgree(tables[i], before, last);
      }
    }
    forall x ensures Registered(calls, x) == Registered(before, x) {
      RegistersNothing(before, last, x);
    }
    SameIds(tables, r);
  }

  /** It changes at most the table of that id, and no table's place. */
  lemma KnownInPlace(tables: seq<TableIndex>, before: seq<Call>, last: Call)
    requires NewestFirst(tables, before) && Indexed(tables, last.Id())
    ensures var r := Step(tables, last);
            |r| == |tables| && forall i | 0 <= i < |tables| ::
              r[i] == if tables[i].fileId == last.Id() && last.InsertCall?
                      then tables[i].(hints := tables[i].hints[last.key := Hint(last.hint.offset, last.hint.size)])
                      else tables[i]
  {
    hide Registered;
    if last.InsertCall? {
      AmendKeeps(tables, last.Id(), last.key, Hint(last.hint.offset, last.hint.size));
    }
  }

  lemma SameIds(tables: seq<TableIndex>, r: seq<TableIndex>)
    requires |r| == |tables| && forall i | 0 <= i < |r| :: r[i].fileId == tables[i].fileId
    ensures forall x :: Indexed(tables, x) ==> Indexed(r, x)
  {
    forall x | Indexed(tables, x) ensures Indexed(r, x) {
      var i :| 0 <= i < |tables| && tables[i].fileId == x;
      assert r[i].fileId == x;
    }
  }

  lemma StepNew(tables: seq<TableIndex>, before: seq<Call>, last: Call)
    requires Tracks(tables, before) && !Indexed(tables, last.Id()) && Registered(before, last.Id()).None?
    ensures Tracks(Step(tables, last), before + [last])
  {
    hide AllAgree, NewestFirst, Complete, Registered, Stored, Step, Indexed;
    var r := Step(tables, last);
    NewFront(tables, last);
    NewAgrees(tables, before, last, r);
    NewIsNewest(tables, before, last, r);
    NewCompletes(tables, before, last, r);
  }

  lemma NewIsNewest(tables: seq<TableIndex>, before: seq<Call>, last: Call, r: seq<TableIndex>)
    requires r != [] && r[1..] == tables && r[0].fileId == last.Id()
    requires NewestFirst(tables, before) && Registered(before, last.Id()).None?
    ensures NewestFirst(r, before + [last])
  {
    hide Registered, Stored;
    forall i | 0 <= i < |r|
      ensures Registered(before + [last], r[i].fileId)
           == if i == 0 then Some(|before|) else Registered(before, tables[i - 1].fileId)
      ensures i > 0 ==> Registered(before, tables[i - 1].fileId).Some?
                        && Registered(before, tables[i - 1].fileId).value < |before|
    {
      Extended(before, last, r[i].fileId, 0);
      if i > 0 {
        assert r[i] == tables[i - 1];
        RegisteredBefore(before, tables[i - 1].fileId);
      }
    }
  }

  lemma NewCompletes(tables: seq<TableIndex>, before: seq<Call>, last: Call, r: seq<TableIndex>)
    requires r != [] && r[1..] == tables && r[0].fileId == last.Id()
    requires Complete(tables, before)
    ensures Complete(r, before + [last])
  {
    hide Registered, Stored, Indexed;
    forall x | Registered(before + [last], x).Some? ensures Indexed(r, x) {
      Extended(before, last, x, 0);
      IndexedCons(r, x);
    }
  }

  lemma NewFront(tables: seq<TableIndex>, last: Call)
    requires !Indexed(tables, last.Id())
    ensures Step(tables, last) == [
      if last.UpdateCall? then last.table
      else TableIndex(last.hint.fileId, map[last.key := Hint(last.hint.offset, last.hint.size)])] + tables
    ensures Step(tables, last)[1..] == tables && Step(tables, last)[0].fileId == last.Id()
  {
  }

  lemma NewAgrees(tables: seq<TableIndex>, before: seq<Call>, last: Call, r: seq<TableIndex>)
    requires !Indexed(tables, last.Id()) && Registered(before, last.Id()).None?
    requires AllAgree(tables, before) && r == Step(tables, last)
    ensures AllAgree(r, before + [last])
  {
    hide Registered, Stored, InsertHint;
    NewFront(tables, last);
    RegisteringAgrees(before, last);
    forall j | 0 < j < |r| ensures Agrees(r[j], before + [last]) {
      assert r[j] == tables[j - 1] && tables[j - 1].fileId != last.Id();
      OthersAgree(tables[j - 1], before, last);
    }
  }

  lemma NotIndexed(tables: seq<TableIndex>, calls: seq<Call>, id: u32)
    requires Tracks(tables, calls) && Registered(calls, id).None?
    ensures !Indexed(tables, id)
  {
    forall i | 0 <= i < |tables| ensures tables[i].fileId != id {
      assert Agrees(tables[i], calls);
    }
  }

  ghost predicate FoundAt(tables: seq<TableIndex>, k: u64, h: SearchHint, i: nat) {
    && i < |tables| && k in tables[i].hints
    && h == SearchHint(tables[i].fileId, tables[i].hints[k].offset, tables[i].hints[k].size)
    && forall j | 0 <= j < i :: k !in tables[j].hints
  }

  lemma {:induction false} SearchFirst(tables: seq<TableIndex>, k: u64)
    ensures Search(tables, k).None? ==> forall i | 0 <= i < |tables| :: k !in tables[i].hints
    ensures Search(tables, k).Some? ==> exists i: nat :: FoundAt(tables, k, Search(tables, k).value, i)
  {
    if tables != [] && k in tables[0].hints {
      assert FoundAt(tables, k, Search(tables, k).value, 0);
    } else if tables != [] {
      SearchFirst(tables[1..], k);
      assert tables == [tables[0]] + tables[1..];
      if Search(tables, k).Some? {
        var i: nat :| FoundAt(tables[1..], k, Search(tables, k).value, i);
        assert FoundAt(tables, k, Search(tables, k).value, i + 1);
      }
    }
  }

  /** Whatever was called: the index answers from the most recently registered
      segment that holds the key, even if an older one was inserted into later. */
  lemma NewestRegistrationAnswers(calls: seq<Call>, k: u64)
    ensures match Search(Run(calls), k)
            case None => forall id :: Stored(calls, id, k).None?
            case Some(h) =>
              && Stored(calls, h.fileId, k) == Some(Hint(h.offset, h.size))
              && Registered(calls, h.fileId).Some?
              && forall id | id != h.fileId && Stored(calls, id, k).Some? ::
                   Registered(calls, id).Some?
                   && Registered(calls, id).value < Registered(calls, h.fileId).value
  {
    hide Run, Search, Stored, Registered;
    var tables := Run(calls);
    RunTracks(calls);
    SearchFirst(tables, k);
    if Search(tables, k).Some? {
      var i: nat :| FoundAt(tables, k, Search(tables, k).value, i);
      assert Agrees(tables[i], calls);
    }
    forall id | Stored(calls, id, k).Some?
      ensures exists i :: 0 <= i < |tables| && tables[i].fileId == id && k in tables[i].hints
    {
      RegisteredBefore(calls, id);
      var i :| 0 <= i < |tables| && tables[i].fileId == id;
      assert Agrees(tables[i], calls);
    }
  }
}
