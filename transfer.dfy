/**
 * The Connection class of main2.cpp once it is connected: SaveTo reads the
 * response with recv until a read returns nothing and writes the body to
 * an output file. The socket is replaced by the chunks it would deliver.
 */
module Transfer {
  import opened Search
  import opened HeaderStrip

  /** The ofstream the response body goes to; only its contents matter here. */
  class OutputFile {
    var contents: seq<byte>

    constructor ()
      ensures contents == []
    {
      contents := [];
    }

    method Write(data: seq<byte>)
      modifies this
      ensures contents == old(contents) + data
    {
      contents := contents + data;
    }
  }

  /** How many reads SaveTo takes: every live read and the empty one after them, if there is one. */
  function ReadsTaken(received: seq<Chunk>): (n: nat)
    ensures n <= |received|
    ensures n == LiveCount(received) || (n == LiveCount(received) + 1 && received[LiveCount(received)] == [])
    ensures LiveCount(received) < |received| ==> n == LiveCount(received) + 1
  {
    if LiveCount(received) < |received| then LiveCount(received) + 1 else |received|
  }

  class Connection {
    /** What recv will still deliver, one read per element. */
    var pending: seq<Chunk>

    constructor (pending: seq<Chunk>)
      ensures this.pending == pending
    {
      this.pending := pending;
    }

    /** One recv: the next chunk, or nothing once the peer has closed. */
    method Recv() returns (chunk: Chunk)
      modifies this
      ensures old(pending) == [] ==> chunk == [] && pending == []
      ensures old(pending) != [] ==> chunk == old(pending)[0] && pending == old(pending)[1..]
    {
      if pending == [] {
        chunk := [];
      } else {
        chunk := pending[0];
        pending := pending[1..];
      }
    }

    /**
     * The file receives the response body as the loop finds it, and the
     * socket has been read up to and including the first empty read.
     */
    method SaveTo(file: OutputFile)
      modifies this, file
      ensures file.contents == old(file.contents) + Body(old(pending))
      ensures pending == old(pending)[ReadsTaken(old(pending))..]
    {
      ghost var received := pending;
      ghost var written := file.contents;
      ghost var out: seq<byte> := [];
      ghost var i := 0;
      var headerEnded := false;
      while true
        invariant ReadSoFar(received, i, headerEnded, out)
        invariant pending == received[i..]
        invariant file.contents == written + out
        decreases |pending|
      {
        var chunk := Recv();
        if |chunk| == 0 {
          ReadEnd(received, i, headerEnded, out);
          break;
        }
        ReadStep(received, i, headerEnded, out);
        out := out + Written(headerEnded, chunk);
        i := i + 1;
        if !headerEnded {
          var headerEnd := FindFrom(chunk, Terminator, 0);
          if headerEnd.Some? {
            var start := headerEnd.value + |Terminator|;
            file.Write(chunk[start..start + (|chunk| - start)]);
            headerEnded := true;
            continue;
          }
        } else {
          file.Write(chunk);
        }
      }
    }
  }
}
