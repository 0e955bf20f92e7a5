/** The database index: segment indexes newest first, with a by-id map into the list. */
module Indexes {
  import opened Wrappers
  import opened Bytes
  import opened Streams
  import opened SSTableIndexes

  datatype SearchHint = SearchHint(fileId: u32, offset: u32, size: u32)

  // ----- On values -----

  /** The first table of the list that holds the key answers. */
  function Search(tables: seq<TableIndex>, k: u64): (h: Option<SearchHint>)
    ensures h.None? <==> forall t | t in tables :: k !in t.hints
  {
    if tables == [] then None
    else if k in tables[0].hints then
      var h := tables[0].hints[k];
      Some(SearchHint(tables[0].fileId, h.offset, h.size))
    else Search(tables[1..], k)
  }

  predicate Indexed(tables: seq<TableIndex>, id: u32) {
    exists i | 0 <= i < |tables| :: tables[i].fileId == id
  }

  /** Replace the table with the given id. */
  function Amend(tables: seq<TableIndex>, id: u32, k: u64, h: Hint): (r: seq<TableIndex>)
    ensures |r| == |tables|
  {
    if tables == [] then []
    else if tables[0].fileId == id then [tables[0].(hints := tables[0].hints[k := h])] + tables[1..]
    else [tables[0]] + Amend(tables[1..], id, k, h)
  }

  function InsertHint(tables: seq<TableIndex>, k: u64, h: SearchHint): seq<TableIndex> {
    if Indexed(tables, h.fileId) then Amend(tables, h.fileId, k, Hint(h.offset, h.size))
    else [TableIndex(h.fileId, map[k := Hint(h.offset, h.size)])] + tables
  }

  datatype LoadedTables = LoadedTables(tables: seq<TableIndex>) | DuplicateId | UndefinedFile

  /** Load index files one after another, each in front of the ones before. */
  function LoadAll(tables: seq<TableIndex>, files: seq<seq<byte>>): LoadedTables
    decreases files
  {
    if files == [] then LoadedTables(tables)
    else
      match LoadIndex(files[0])
      case IndexUndefined => UndefinedFile
      case IndexLoaded(t) =>
        if Indexed(tables, t.fileId) then DuplicateId else LoadAll([t] + tables, files[1..])
  }

  // ----- The object -----

  class Index {
    var tables: seq<SSTableIndex>
    var byId: map<u32, SSTableIndex>

    ghost predicate Valid()
      reads this, tables
    {
      && (forall i, j | 0 <= i < j < |tables| ::
            tables[i] != tables[j] && tables[i].fileId != tables[j].fileId)
      && (forall i | 0 <= i < |tables| ::
            tables[i].fileId in byId && byId[tables[i].fileId] == tables[i])
      && (forall id | id in byId :: byId[id] in tables && byId[id].fileId == id)
    }

    ghost function View(): (v: seq<TableIndex>)
      reads this, tables
      ensures |v| == |tables|
    {
      seq(|tables|, i requires 0 <= i < |tables| reads this, tables => tables[i].View())
    }

    constructor ()
      ensures Valid() && View() == [] && tables == []
    {
      tables, byId := [], map[];
    }

    /** The trusted form of `update`: no duplicate check. */
    method Register(table: SSTableIndex)
      requires Valid() && table !in tables && !Indexed(View(), table.fileId)
      modifies this
      ensures Valid() && tables == [table] + old(tables)
      ensures View() == [table.View()] + old(View())
    {
      ById(table.fileId);
      tables := [table] + tables;
      byId := byId[table.fileId := table];
    }

    /** Refuses a file id that is already indexed and then changes nothing. */
    method Update(table: SSTableIndex) returns (thrown: bool)
      requires Valid() && table !in tables
      modifies this
      ensures Valid()
      ensures thrown <==> Indexed(old(View()), table.fileId)
      ensures tables == if thrown then old(tables) else [table] + old(tables)
      ensures View() == if thrown then old(View()) else [table.View()] + old(View())
    {
      ById(table.fileId);
      if table.fileId in byId {
        return true;
      }
      Register(table);
      thrown := false;
    }

    /** Into the table registered under the hint's file id, wherever it stands in
        the list, or into a new one at the front. */
    method Insert(key: u64, hint: SearchHint)
      requires Valid()
      modifies this, tables
      ensures Valid() && View() == InsertHint(old(View()), key, hint)
    {
      var h := Hint(hint.offset, hint.size);
      ById(hint.fileId);
      if hint.fileId !in byId {
        var table := new SSTableIndex(hint.fileId);
        table.Insert(key, h);
        Register(table);
      } else {
        ghost var i :| 0 <= i < |tables| && tables[i] == byId[hint.fileId];
        InsertInto(i, byId[hint.fileId], key, h);
      }
    }

    /** The map finds an id exactly when the list holds it. */
    lemma ById(id: u32)
      requires Valid()
      ensures id in byId <==> Indexed(View(), id)
    {
      assert forall i | 0 <= i < |tables| :: View()[i].fileId == tables[i].fileId;
      if id in byId {
        var i :| 0 <= i < |tables| && tables[i] == byId[id];
        assert View()[i].fileId == id;
      }
    }

    method InsertInto(ghost i: nat, table: SSTableIndex, key: u64, hint: Hint)
      requires Valid() && i < |tables| && tables[i] == table
      modifies table
      ensures Valid() && View() == Amend(old(View()), table.fileId, key, hint)
    {
      hide Amend, Indexed, Search;
      ghost var before := View();
      AmendView(i, key, hint);
      table.Insert(key, hint);
      ViewOfOne(i, before);
    }

    lemma AmendView(i: nat, key: u64, hint: Hint)
      requires Valid() && i < |tables|
      ensures Amend(View(), tables[i].fileId, key, hint)
           == View()[i := tables[i].View().(hints := tables[i].hints[key := hint])]
    {
      assert forall j | 0 <= j < |tables| :: View()[j].fileId == tables[j].fileId;
      AmendAt(View(), i, key, hint);
    }

    /** When all other tables are as they were, only one place of the view differs. */
    lemma ViewOfOne(i: nat, before: seq<TableIndex>)
      requires i < |tables| == |before|
      requires forall j | 0 <= j < |tables| && j != i :: tables[j].View() == before[j]
      ensures View() == before[i := tables[i].View()]
    {
    }

    /** Walks the list from its front and returns early. */
    method Get(key: u64) returns (found: bool, hint: SearchHint)
      requires Valid()
      ensures found <==> Search(View(), key).Some?
      ensures hint == if found then Search(View(), key).value else SearchHint(0, 0, 0)
    {
      hide Search, Indexed;
      ghost var v := View();
      assert v[0..] == v;
      for i := 0 to |tables|
        invariant Search(v, key) == Search(v[i..], key)
      {
        var here, fileHint := tables[i].Get(key);
        assert v[i] == tables[i].View();
        SearchFrom(v, i, key);
        if here {
          return true, SearchHint(tables[i].fileId, fileHint.offset, fileHint.size);
        }
      }
      return false, SearchHint(0, 0, 0);
    }

    /** Loads the files of the index directory in the order of `files`. */
    method Load(files: seq<seq<byte>>) returns (loaded: bool, thrown: bool)
      requires Valid()
      modifies this
      ensures Valid()
      ensures loaded <==> LoadAll(old(View()), files).LoadedTables?
      ensures thrown <==> LoadAll(old(View()), files).DuplicateId?
      ensures loaded ==> View() == LoadAll(old(View()), files).tables
      ensures forall t | t in tables :: t in old(tables) || fresh(t)
    {
      hide LoadIndex;
      ghost var all := LoadAll(View(), files);
      for i := 0 to |files|
        invariant Valid()
        invariant LoadAll(View(), files[i..]) == all
        invariant forall t | t in tables :: t in old(tables) || fresh(t)
      {
        assert files[i..][1..] == files[i + 1..];
        loaded, thrown := LoadFile(files[i]);
        if !loaded {
          return;
        }
      }
      loaded, thrown := true, false;
    }

    method LoadFile(file: seq<byte>) returns (loaded: bool, thrown: bool)
      requires Valid()
      modifies this
      ensures Valid()
      ensures loaded <==> LoadIndex(file).IndexLoaded? && !thrown
      ensures thrown <==> LoadIndex(file).IndexLoaded? && Indexed(old(View()), LoadIndex(file).index.fileId)
      ensures loaded ==> View() == [LoadIndex(file).index] + old(View())
      ensures forall t | t in tables :: t in old(tables) || fresh(t)
    {
      hide LoadIndex, LoadInto, Indexed;
      var stream := new InStream(file);
      var table := new SSTableIndex(0);
      LoadIndexIs(file);
      loaded := table.Load(stream);
      thrown := false;
      if loaded {
        thrown := Update(table);
        loaded := !thrown;
      }
    }
  }

  lemma SearchFrom(tables: seq<TableIndex>, i: nat, k: u64)
    requires i < |tables|
    ensures Search(tables[i..], k)
         == if k in tables[i].hints
            then Some(SearchHint(tables[i].fileId, tables[i].hints[k].offset, tables[i].hints[k].size))
            else Search(tables[i + 1..], k)
  {
    assert tables[i..][1..] == tables[i + 1..];
  }

  // ----- Loading a directory -----

  function IdOf(file: seq<byte>): u32
    requires LoadIndex(file).IndexLoaded?
  {
    LoadIndex(file).index.fileId
  }

  /** The i-th file loads, and its id is that of no table and of no file before it. */
  ghost predicate LoadsFresh(tables: seq<TableIndex>, files: seq<seq<byte>>, i: nat)
    requires i < |files|
  {
    && LoadIndex(files[i]).IndexLoaded? && !Indexed(tables, IdOf(files[i]))
    && forall j | 0 <= j < i && LoadIndex(files[j]).IndexLoaded? :: IdOf(files[j]) != IdOf(files[i])
  }

  lemma FreshNext(tables: seq<TableIndex>, files: seq<seq<byte>>, i: nat)
    requires files != [] && LoadsFresh(tables, files, 0) && i < |files| - 1
    ensures LoadsFresh([LoadIndex(files[0]).index] + tables, files[1..], i) <==> LoadsFresh(tables, files, i + 1)
  {
    hide LoadIndex, Indexed;
    var r := [LoadIndex(files[0]).index] + tables;
    assert r[1..] == tables && forall j | 0 <= j < |files| - 1 :: files[1..][j] == files[j + 1];
    if LoadIndex(files[i + 1]).IndexLoaded? {
      IndexedCons(r, IdOf(files[i + 1]));
    }
    if LoadsFresh(r, files[1..], i) {
      forall j | 0 <= j < i + 1 && LoadIndex(files[j]).IndexLoaded? ensures IdOf(files[j]) != IdOf(files[i + 1]) {
        if j > 0 {
          assert files[1..][j - 1] == files[j];
        }
      }
    }
  }

  /** The files that load are in front of the list, the last one first. */
  ghost predicate LoadedInFront(r: seq<TableIndex>, tables: seq<TableIndex>, files: seq<seq<byte>>) {
    && |r| == |files| + |tables| && r[|files|..] == tables
    && forall i | 0 <= i < |files| ::
         LoadIndex(files[i]).IndexLoaded? && r[|files| - 1 - i] == LoadIndex(files[i]).index
  }

  /** The first file that does not load afresh decides: a repeated id throws. */
  ghost predicate ThrowsAt(tables: seq<TableIndex>, files: seq<seq<byte>>, i: nat) {
    && i < |files| && LoadIndex(files[i]).IndexLoaded? && !LoadsFresh(tables, files, i)
    && forall j: nat | j < i :: LoadsFresh(tables, files, j)
  }

  /** Loading arbitrary files: complete exactly when each loads with an id of its own,
      an exception exactly when the first that does not has a repeated id. */
  lemma {:induction false} LoadAllExactly(tables: seq<TableIndex>, files: seq<seq<byte>>)
    ensures LoadAll(tables, files).LoadedTables? <==>
      forall i: nat | i < |files| :: LoadsFresh(tables, files, i)
    ensures LoadAll(tables, files).LoadedTables? ==> LoadedInFront(LoadAll(tables, files).tables, tables, files)
    ensures LoadAll(tables, files).DuplicateId? <==> exists i: nat :: ThrowsAt(tables, files, i)
    decreases files
  {
    hide LoadIndex, Indexed;
    if files != [] {
      if LoadsFresh(tables, files, 0) {
        var t, rest := LoadIndex(files[0]).index, files[1..];
        LoadAllExactly([t] + tables, rest);
        forall i: nat | i < |rest|
          ensures LoadsFresh([t] + tables, rest, i) <==> LoadsFresh(tables, files, i + 1)
        {
          FreshNext(tables, files, i);
        }
        AllFresh([t] + tables, tables, files);
        ThrowsNext([t] + tables, tables, files);
        if LoadAll(tables, files).LoadedTables? {
          InFrontNext(LoadAll(tables, files).tables, t, tables, files);
        }
      } else {
        NoFreshStart(tables, files);
      }
    }
  }

  lemma AllFresh(next: seq<TableIndex>, tables: seq<TableIndex>, files: seq<seq<byte>>)
    requires files != [] && LoadsFresh(tables, files, 0)
    requires forall i: nat | i < |files[1..]| ::
      LoadsFresh(next, files[1..], i) <==> LoadsFresh(tables, files, i + 1)
    ensures (forall i: nat | i < |files[1..]| :: LoadsFresh(next, files[1..], i))
       <==> forall i: nat | i < |files| :: LoadsFresh(tables, files, i)
  {
    hide LoadsFresh;
    if forall i: nat | i < |files[1..]| :: LoadsFresh(next, files[1..], i) {
      forall i: nat | i < |files| ensures LoadsFresh(tables, files, i) {
        if i > 0 {
          assert LoadsFresh(next, files[1..], i - 1);
        }
      }
    }
    if forall i: nat | i < |files| :: LoadsFresh(tables, files, i) {
      forall i: nat | i < |files[1..]| ensures LoadsFresh(next, files[1..], i) {
        assert LoadsFresh(tables, files, i + 1);
      }
    }
  }

  lemma ThrowsNext(next: seq<TableIndex>, tables: seq<TableIndex>, files: seq<seq<byte>>)
    requires files != [] && LoadsFresh(tables, files, 0)
    requires forall i: nat | i < |files[1..]| ::
      LoadsFresh(next, files[1..], i) <==> LoadsFresh(tables, files, i + 1)
    ensures (exists i: nat :: ThrowsAt(next, files[1..], i)) <==> exists i: nat :: ThrowsAt(tables, files, i)
  {
    hide LoadsFresh, LoadIndex;
    if i: nat :| ThrowsAt(next, files[1..], i) {
      forall j: nat | j < i + 1 ensures LoadsFresh(tables, files, j) {
        if j > 0 {
          assert LoadsFresh(next, files[1..], j - 1);
        }
      }
      assert files[1..][i] == files[i + 1];
      assert ThrowsAt(tables, files, i + 1);
    }
    if i: nat :| ThrowsAt(tables, files, i) {
      forall j: nat | j < i - 1 ensures LoadsFresh(next, files[1..], j) {
        assert LoadsFresh(tables, files, j + 1);
      }
      assert files[1..][i - 1] == files[i];
      assert ThrowsAt(next, files[1..], i - 1);
    }
  }

  lemma InFrontNext(r: seq<TableIndex>, t: TableIndex, tables: seq<TableIndex>, files: seq<seq<byte>>)
    requires files != [] && LoadIndex(files[0]) == IndexLoaded(t)
    requires LoadedInFront(r, [t] + tables, files[1..])
    ensures LoadedInFront(r, tables, files)
  {
    hide LoadIndex;
    var n := |files|;
    assert r[n - 1..] == [t] + tables;
    assert r[n - 1] == r[n - 1..][0] && r[n..] == r[n - 1..][1..];
    forall i | 0 <= i < n
      ensures LoadIndex(files[i]).IndexLoaded? && r[n - 1 - i] == LoadIndex(files[i]).index
    {
      if i > 0 {
        assert files[1..][i - 1] == files[i];
      }
    }
  }

  lemma NoFreshStart(tables: seq<TableIndex>, files: seq<seq<byte>>)
    requires files != [] && !LoadsFresh(tables, files, 0)
    ensures (exists i: nat :: ThrowsAt(tables, files, i)) <==> LoadIndex(files[0]).IndexLoaded?
  {
    hide LoadIndex, LoadsFresh;
    if LoadIndex(files[0]).IndexLoaded? {
      assert ThrowsAt(tables, files, 0);
    }
  }

  lemma IndexedCons(r: seq<TableIndex>, x: u32)
    requires r != []
    ensures Indexed(r, x) <==> r[0].fileId == x || Indexed(r[1..], x)
  {
    if i :| 0 <= i < |r[1..]| && r[1..][i].fileId == x {
      assert r[i + 1].fileId == x;
    }
    if i :| 0 < i < |r| && r[i].fileId == x {
      assert r[1..][i - 1].fileId == x;
    }
  }

  lemma {:induction false} AmendAt(tables: seq<TableIndex>, i: nat, k: u64, h: Hint)
    requires i < |tables|
    requires forall j | 0 <= j < i :: tables[j].fileId != tables[i].fileId
    ensures Amend(tables, tables[i].fileId, k, h)
         == tables[i := tables[i].(hints := tables[i].hints[k := h])]
  {
    if i > 0 {
      AmendAt(tables[1..], i - 1, k, h);
      assert tables == [tables[0]] + tables[1..];
    }
  }
}
