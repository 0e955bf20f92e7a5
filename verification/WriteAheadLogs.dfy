/** The append-only record log. What is flushed is on disk; the rest may be. */
module WriteAheadLogs {
  import opened Bytes
  import opened Rows

  /** All bytes handed to the stream, and how many of them were flushed. */
  datatype Log = Log(written: seq<byte>, flushed: nat) {

    function Append(row: Row): Log {
      Log(written + Serialize(row), flushed)
    }

    function Flush(): Log {
      Log(written, |written|)
    }
  }

  const EMPTY_LOG := Log([], 0)

  class WriteAheadLog {
    var written: seq<byte>
    var flushed: nat

    ghost function View(): Log
      reads this
    {
      Log(written, flushed)
    }

    /** Opening the file for output truncates it. */
    constructor ()
      ensures View() == EMPTY_LOG
    {
      written, flushed := [], 0;
    }

    method LogRow(row: Row)
      modifies this
      ensures View() == old(View()).Append(row)
    {
      var data := SerializeRow(row);
      written := written + data;
    }

    method FlushAndClear()
      modifies this
      ensures View() == old(View()).Flush()
    {
      flushed := |written|;
    }
  }
}
