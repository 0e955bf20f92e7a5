/** What a sequence of rows says about a key: the reference the storage
    structures are proved against. */
module Records {
  import opened Wrappers
  import opened Bytes
  import opened Rows

  /** The last row of `rows` with key `k`. */
  function Newest(rows: seq<Row>, k: u64): (r: Option<Row>)
    ensures r.Some? ==> r.value in rows && r.value.key == k
    ensures r.None? ==> forall row | row in rows :: row.key != k
  {
    if rows == [] then None
    else
      var n := |rows| - 1;
      if rows[n].key == k then Some(rows[n]) else Newest(rows[..n], k)
  }

  /** The first row of `rows` with key `k`. */
  function First(rows: seq<Row>, k: u64): (r: Option<Row>)
    ensures r.Some? ==> r.value in rows && r.value.key == k
    ensures r.None? ==> forall row | row in rows :: row.key != k
  {
    if rows == [] then None
    else if rows[0].key == k then Some(rows[0]) else First(rows[1..], k)
  }

  function OrElse(a: Option<Row>, b: Option<Row>): Option<Row> {
    if a.Some? then a else b
  }

  /** Strictly increasing keys. */
  ghost predicate StrictlyKeyed(rows: seq<Row>) {
    forall i, j | 0 <= i < j < |rows| :: rows[i].key < rows[j].key
  }

  lemma {:induction false} NewestOfConcat(a: seq<Row>, b: seq<Row>, k: u64)
    ensures Newest(a + b, k) == OrElse(Newest(b, k), Newest(a, k))
  {
    if b == [] {
      assert a + b == a;
    } else {
      var n := |b| - 1;
      assert (a + b)[..|a + b| - 1] == a + b[..n];
      NewestOfConcat(a, b[..n], k);
    }
  }

  lemma {:induction false} FirstAt(rows: seq<Row>, i: nat)
    requires StrictlyKeyed(rows) && i < |rows|
    ensures First(rows, rows[i].key) == Some(rows[i])
  {
    if i > 0 {
      assert rows[0].key < rows[i].key;
      FirstAt(rows[1..], i - 1);
    }
  }

  lemma ConsKeyed(row: Row, rows: seq<Row>)
    requires StrictlyKeyed(rows) && forall r | r in rows :: row.key < r.key
    ensures StrictlyKeyed([row] + rows)
  {
  }
}
