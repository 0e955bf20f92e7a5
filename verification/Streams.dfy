/** The part of `std::istream` the loaders depend on: a short read sets both the
    end-of-file and the failure bit, and a stream that is not good reads nothing. */
module Streams {
  import opened Bytes

  /** A stream's bytes, its position and its two state bits. */
  datatype Cursor = Cursor(data: seq<byte>, pos: nat, eof: bool, fail: bool) {

    predicate Valid() {
      pos <= |data| && (fail ==> eof)
    }

    predicate Good() {
      !eof && !fail
    }

    /** The bytes `read` of `n` bytes delivers. */
    function Got(n: nat): (b: seq<byte>)
      requires Valid()
      ensures |b| <= n
    {
      if !Good() then []
      else if pos + n <= |data| then data[pos..pos + n]
      else data[pos..]
    }

    /** What that leaves in a zero-initialised target: bytes that are not there
        leave the target's zeros in place. */
    function Take(n: nat): (target: seq<byte>)
      requires Valid()
      ensures |target| == n
    {
      Got(n) + Zeros(n - |Got(n)|)
    }

    /** The stream after `read` of `n` bytes. */
    function Skip(n: nat): (c: Cursor)
      requires Valid()
      ensures c.Valid() && c.data == data && c.pos >= pos
      ensures c.Good() ==> Good() && c.pos == pos + n
    {
      if !Good() then Cursor(data, pos, eof, true)
      else if pos + n <= |data| then Cursor(data, pos + n, false, false)
      else Cursor(data, |data|, true, true)
    }

    /** `peek`: notices the end of the stream without consuming anything. */
    function Peek(): (c: Cursor)
      requires Valid()
      ensures c.Valid() && c.data == data && c.pos == pos
      ensures c.Good() ==> pos < |data|
    {
      if !Good() then Cursor(data, pos, eof, true)
      else Cursor(data, pos, pos == |data|, false)
    }
  }

  /** A target after a read has overwritten its first bytes. */
  function Overlay(target: seq<byte>, got: seq<byte>): (b: seq<byte>)
    requires |got| <= |target|
    ensures |b| == |target|
  {
    got + target[|got|..]
  }

  lemma OverlayAll(target: seq<byte>, got: seq<byte>)
    requires |got| == |target|
    ensures Overlay(target, got) == got
  {
  }

  function Open(data: seq<byte>): (c: Cursor)
    ensures c.Valid() && c.Good()
  {
    Cursor(data, 0, false, false)
  }

  /** Reading from a good stream: only asking for more than there is ends and fails it,
      and looking ahead ends it, without a failure, exactly at the last byte. */
  lemma GoodStream(c: Cursor, n: nat)
    requires c.Valid() && c.Good()
    ensures |c.Got(n)| == if c.pos + n <= |c.data| then n else |c.data| - c.pos
    ensures forall i | 0 <= i < |c.Got(n)| :: c.Got(n)[i] == c.data[c.pos + i]
    ensures c.Skip(n).pos == c.pos + |c.Got(n)|
    ensures c.Skip(n).eof == c.Skip(n).fail == (c.pos + n > |c.data|)
    ensures !c.Peek().fail && (c.Peek().eof <==> c.pos == |c.data|)
  {
  }

  /** A stream that is not good delivers nothing, stays where it is and fails. */
  lemma BadStream(c: Cursor, n: nat)
    requires c.Valid() && !c.Good()
    ensures c.Got(n) == [] && c.Skip(n) == c.Peek() == c.(fail := true)
  {
  }

  class InStream {
    const data: seq<byte>
    var pos: nat
    var eof: bool
    var fail: bool

    ghost function View(): Cursor
      reads this
    {
      Cursor(data, pos, eof, fail)
    }

    constructor (data: seq<byte>)
      ensures View() == Open(data)
    {
      this.data := data;
      pos, eof, fail := 0, false, false;
    }

    method Read(n: nat) returns (bytes: seq<byte>)
      requires View().Valid()
      modifies this
      ensures bytes == old(View()).Got(n) && View() == old(View()).Skip(n)
    {
      if eof || fail {
        bytes := [];
        fail := true;
      } else if pos + n <= |data| {
        bytes := data[pos..pos + n];
        pos := pos + n;
      } else {
        bytes := data[pos..];
        pos, eof, fail := |data|, true, true;
      }
    }

    /** `read` into a target whose first `n` bytes start out as zeros. */
    method ReadZeroed(n: nat) returns (target: seq<byte>)
      requires View().Valid()
      modifies this
      ensures target == old(View()).Take(n) && View() == old(View()).Skip(n)
    {
      target := Read(n);
      target := target + Zeros(n - |target|);
    }

    method Peek()
      requires View().Valid()
      modifies this
      ensures View() == old(View()).Peek()
    {
      if eof || fail {
        fail := true;
      } else if pos == |data| {
        eof := true;
      }
    }
  }
}
