/** A sorted table of rows and its file. */
module SSTables {
  import opened Bytes
  import opened Streams
  import opened Rows

  class SSTable {
    var rows: seq<Row>

    constructor ()
      ensures rows == []
    {
      rows := [];
    }

    method Append(row: Row)
      modifies this
      ensures rows == old(rows) + [row]
    {
      rows := rows + [row];
    }

    /** Serialises row after row. */
    method Dump() returns (stream: seq<byte>)
      ensures stream == SerializeAll(rows)
    {
      hide Serialize;
      stream := [];
      for i := 0 to |rows|
        invariant stream == SerializeAll(rows[..i])
      {
        var data := SerializeRow(rows[i]);
        SerializeAllConcat(rows[..i], [rows[i]]);
        assert rows[..i] + [rows[i]] == rows[..i + 1];
        assert SerializeAll([rows[i]]) == data + SerializeAll([]) == data;
        stream := stream + data;
      }
      assert rows[..|rows|] == rows;
    }

    /** Decodes rows until the end of the stream shows; a good stream that turns
        out empty is still decoded once. */
    method Load(stream: InStream) returns (defined: bool)
      requires stream.View().Valid() && stream.View().Good()
      modifies this, stream
      ensures defined <==> LoadRows(old(stream.View())).Loaded?
      ensures defined ==> rows == old(rows) + LoadRows(old(stream.View())).rows
    {
      hide Deserialize;
      ghost var all := LoadRows(stream.View());
      ghost var before := rows;
      while !stream.eof
        invariant stream.View().Valid()
        invariant before <= rows
        invariant if stream.eof then all == Loaded(rows[|before|..])
                  else all == Prefixed(rows[|before|..], LoadRows(stream.View()))
        decreases !stream.eof, |stream.data| - stream.pos
      {
        ghost var read, at := rows[|before|..], stream.View();
        var d := DeserializeFrom(stream);
        if d.Undefined? {
          return false;
        }
        rows := rows + [d.row];
        stream.Peek();
        assert rows[|before|..] == read + [d.row];
        if !stream.eof {
          PrefixedTwice(read, [d.row], LoadRows(stream.View()));
        }
      }
      defined := true;
    }
  }
}
