/**
 * What the receive loop of the downloader writes to its output file
 * (Connection::SaveTo in main2.cpp, the loop at the end of main in
 * main.cpp). Each call of recv delivers one chunk; the sequence of chunks
 * the socket would deliver is the input. A chunk of length zero stands for
 * a recv that returned zero or a negative value, and reading past the end
 * of the sequence behaves like a closed peer (recv returns zero).
 *
 * The loop drops chunks until one of them contains CR LF CR LF, writes
 * what follows the first such terminator in that chunk, and then writes
 * every later chunk whole. The specification below says this without a
 * flag: Strip is defined on the list of chunks read.
 */
module HeaderStrip {
  import opened Wrappers
  import opened Search

  newtype byte = x: int | 0 <= x < 256

  type Chunk = seq<byte>

  const CR: byte := 13
  const LF: byte := 10

  /** The empty line that ends the header section of a response (section 2.1 of RFC 9112). */
  const Terminator: seq<byte> := [CR, LF, CR, LF]

  /** How many reads deliver data before the first read that returns nothing. */
  function LiveCount(received: seq<Chunk>): (n: nat)
    ensures n <= |received|
    ensures forall j :: 0 <= j < n ==> received[j] != []
    ensures n < |received| ==> received[n] == []
  {
    if received == [] || received[0] == [] then 0 else 1 + LiveCount(received[1..])
  }

  /** The chunks the loop processes: all received before the first empty one. */
  function Live(received: seq<Chunk>): seq<Chunk> {
    received[..LiveCount(received)]
  }

  /** The chunk holds a whole terminator. */
  predicate HasTerminator(c: Chunk) {
    FindFrom(c, Terminator, 0).Some?
  }

  /** Some chunk of cs holds a whole terminator: the loop's headerEnded flag after reading cs. */
  predicate HeaderSeen(cs: seq<Chunk>) {
    cs != [] && (HasTerminator(cs[0]) || HeaderSeen(cs[1..]))
  }

  /**
   * The bytes of a chunk after its first terminator. Their count,
   * |c| - (headerEnd + 4), is never negative: the terminator lies inside c.
   */
  function AfterHeader(c: Chunk): (rest: Chunk)
    requires HasTerminator(c)
    ensures |rest| == |c| - (FindFrom(c, Terminator, 0).value + |Terminator|)
    ensures c == c[..|c| - |rest|] + rest
    ensures c[|c| - |rest| - |Terminator|..|c| - |rest|] == Terminator
  {
    var headerEnd := FindFrom(c, Terminator, 0).value;
    c[headerEnd + |Terminator|..]
  }

  /** All chunks one after another. */
  function Concat(cs: seq<Chunk>): seq<byte> {
    if cs == [] then [] else cs[0] + Concat(cs[1..])
  }

  /** The sum of the chunk sizes. */
  function TotalSize(cs: seq<Chunk>): nat {
    if cs == [] then 0 else |cs[0]| + TotalSize(cs[1..])
  }

  /**
   * What is written for the chunks cs: nothing for the chunks before the
   * first one holding a terminator, the bytes after its terminator for
   * that one, every later chunk whole.
   */
  function Strip(cs: seq<Chunk>): seq<byte> {
    if cs == [] then []
    else if HasTerminator(cs[0]) then AfterHeader(cs[0]) + Concat(cs[1..])
    else Strip(cs[1..])
  }

  /** The contents of the output file after the receive loop. */
  function Body(received: seq<Chunk>): seq<byte> {
    Strip(Live(received))
  }

  lemma {:induction false} ConcatSnoc(cs: seq<Chunk>, c: Chunk)
    ensures Concat(cs + [c]) == Concat(cs) + c
  {
    if cs != [] {
      assert (cs + [c])[1..] == cs[1..] + [c];
      ConcatSnoc(cs[1..], c);
    }
  }

  lemma {:induction false} ConcatLength(cs: seq<Chunk>)
    ensures |Concat(cs)| == TotalSize(cs)
  {
    if cs != [] {
      ConcatLength(cs[1..]);
    }
  }

  /** After one more read the flag is set exactly if it was set or the new chunk holds a terminator. */
  lemma {:induction false} HeaderSeenSnoc(cs: seq<Chunk>, c: Chunk)
    ensures HeaderSeen(cs + [c]) <==> HeaderSeen(cs) || HasTerminator(c)
  {
    if cs == [] {
      assert [c][1..] == [];
    } else {
      assert (cs + [c])[1..] == cs[1..] + [c];
      HeaderSeenSnoc(cs[1..], c);
    }
  }

  /** What the loop writes for one more live chunk c, given whether the header had ended before it. */
  function Written(headerEnded: bool, c: Chunk): seq<byte> {
    if headerEnded then c else if HasTerminator(c) then AfterHeader(c) else []
  }

  /**
   * One more read, as the loop handles it: once a header has been seen the
   * chunk is appended whole; before that, a chunk holding a terminator
   * contributes what follows it, and any other chunk nothing. Until a
   * header has been seen nothing has been written.
   */
  lemma {:induction false} StripSnoc(cs: seq<Chunk>, c: Chunk)
    ensures Strip(cs + [c]) == Strip(cs) + Written(HeaderSeen(cs), c)
    ensures !HeaderSeen(cs) ==> Strip(cs) == []
  {
    if cs == [] {
      assert [c][1..] == [];
    } else {
      assert (cs + [c])[0] == cs[0];
      assert (cs + [c])[1..] == cs[1..] + [c];
      if HasTerminator(cs[0]) {
        ConcatSnoc(cs[1..], c);
      } else {
        StripSnoc(cs[1..], c);
      }
    }
  }

  /** The state of the receive loop after its first i reads: the flag and the bytes written so far. */
  ghost predicate ReadSoFar(received: seq<Chunk>, i: nat, headerEnded: bool, out: seq<byte>) {
    i <= LiveCount(received) &&
    headerEnded == HeaderSeen(received[..i]) &&
    out == Strip(received[..i])
  }

  /** One more live read sets the flag if its chunk holds a terminator and adds Written to the file. */
  lemma ReadStep(received: seq<Chunk>, i: nat, headerEnded: bool, out: seq<byte>)
    requires ReadSoFar(received, i, headerEnded, out)
    requires i < |received| && received[i] != []
    ensures ReadSoFar(received, i + 1, headerEnded || HasTerminator(received[i]), out + Written(headerEnded, received[i]))
  {
    var prefix, c := received[..i], received[i];
    assert i < LiveCount(received);
    assert received[..i + 1] == prefix + [c];
    StripSnoc(prefix, c);
    HeaderSeenSnoc(prefix, c);
  }

  /** When the next read returns nothing, the loop has written the body. */
  lemma ReadEnd(received: seq<Chunk>, i: nat, headerEnded: bool, out: seq<byte>)
    requires ReadSoFar(received, i, headerEnded, out)
    requires i == |received| || received[i] == []
    ensures i == LiveCount(received) && out == Body(received)
  {
    LiveEnd(received, i);
  }

  /** The live reads are the first i when read i returns nothing or does not exist. */
  lemma LiveEnd(received: seq<Chunk>, i: nat)
    requires i <= LiveCount(received)
    requires i == |received| || received[i] == []
    ensures i == LiveCount(received) && Live(received) == received[..i]
  {
  }

  /** Strip, stated directly: everything comes from the first chunk holding a terminator on. */
  lemma {:induction false} StripFromFirstHeader(cs: seq<Chunk>, k: nat)
    requires k < |cs| && HasTerminator(cs[k])
    requires forall j :: 0 <= j < k ==> !HasTerminator(cs[j])
    ensures Strip(cs) == AfterHeader(cs[k]) + Concat(cs[k + 1..])
  {
    if k > 0 {
      assert !HasTerminator(cs[0]);
      assert cs[1..][k - 1] == cs[k] && cs[1..][k..] == cs[k + 1..];
      StripFromFirstHeader(cs[1..], k - 1);
    }
  }

  /** Without a chunk that holds a whole terminator, nothing is written. */
  lemma {:induction false} StripWithoutHeader(cs: seq<Chunk>)
    requires forall j :: 0 <= j < |cs| ==> !HasTerminator(cs[j])
    ensures Strip(cs) == []
  {
    if cs != [] {
      assert !HasTerminator(cs[0]);
      assert forall j :: 0 <= j < |cs[1..]| ==> cs[1..][j] == cs[j + 1];
      StripWithoutHeader(cs[1..]);
    }
  }

  /**
   * The output file holds the bytes after the first terminator of the first
   * chunk that holds one, then every later chunk in order; its length is
   * what remains of that chunk plus the sizes of the later chunks.
   */
  lemma BodyFromFirstHeaderChunk(received: seq<Chunk>, k: nat)
    requires k < LiveCount(received) && HasTerminator(received[k])
    requires forall j :: 0 <= j < k ==> !HasTerminator(received[j])
    ensures Body(received) == AfterHeader(received[k]) + Concat(received[k + 1..LiveCount(received)])
    ensures |Body(received)| ==
      |received[k]| - (FindFrom(received[k], Terminator, 0).value + |Terminator|)
      + TotalSize(received[k + 1..LiveCount(received)])
  {
    var n := LiveCount(received);
    var live := Live(received);
    assert live[k] == received[k] && live[k + 1..] == received[k + 1..n];
    StripFromFirstHeader(live, k);
    ConcatLength(received[k + 1..n]);
  }

  /** Nothing is written when no single chunk holds the whole terminator. */
  lemma BodyWithoutTerminator(received: seq<Chunk>)
    requires forall j :: 0 <= j < LiveCount(received) ==> !HasTerminator(received[j])
    ensures Body(received) == []
  {
    var live := Live(received);
    assert forall j :: 0 <= j < |live| ==> live[j] == received[j];
    StripWithoutHeader(live);
  }

  /** The read count is fixed by its contract. */
  lemma LiveCountUnique(received: seq<Chunk>, n: nat)
    requires n <= |received|
    requires forall j :: 0 <= j < n ==> received[j] != []
    requires n < |received| ==> received[n] == []
    ensures LiveCount(received) == n
  {
  }

  /** Reading stops at the first empty read: nothing after it reaches the file. */
  lemma BodyStopsAtEmptyRead(received: seq<Chunk>, i: nat)
    requires i < |received| && received[i] == []
    ensures LiveCount(received) <= i
    ensures Body(received) == Body(received[..i])
  {
    LivePrefix(received, i);
  }

  /** Cutting the reads at an empty one keeps the live reads. */
  lemma LivePrefix(received: seq<Chunk>, i: nat)
    requires i < |received| && received[i] == []
    ensures LiveCount(received) <= i
    ensures Live(received[..i]) == Live(received)
  {
    var n := LiveCount(received);
    var prefix := received[..i];
    forall j | 0 <= j < n
      ensures prefix[j] != []
    {
      assert prefix[j] == received[j];
    }
    if n < i {
      assert prefix[n] == received[n];
    }
    LiveCountUnique(prefix, n);
    assert prefix[..n] == received[..n];
  }

  lemma ConcatPair()
    ensures Concat([[CR, LF], [CR, LF, 65]]) == [CR, LF, CR, LF, 65]
  {
    var cs: seq<Chunk> := [[CR, LF], [CR, LF, 65]];
    assert cs[1..] == [[CR, LF, 65]] && cs[1..][1..] == [];
    assert Concat(cs[1..]) == [CR, LF, 65];
  }

  /**
   * A terminator split over two reads is never seen: the stream below holds
   * CR LF CR LF followed by one byte of content, yet nothing is written.
   */
  lemma StraddledTerminatorLost()
    ensures OccursAt(Concat([[CR, LF], [CR, LF, 65]]), Terminator, 0)
    ensures Body([[CR, LF], [CR, LF, 65]]) == []
  {
    var received: seq<Chunk> := [[CR, LF], [CR, LF, 65]];
    ConcatPair();
    assert LiveCount(received) == 2;
    assert !HasTerminator(received[0]) && !HasTerminator(received[1]);
    BodyWithoutTerminator(received);
  }

  /** The bytes after the first terminator of a byte stream; nothing if it holds none. */
  function AfterStreamHeader(stream: seq<byte>): seq<byte> {
    match FindFrom(stream, Terminator, 0)
    case None => []
    case Some(headerEnd) => stream[headerEnd + |Terminator|..]
  }

  /** Once the stream holds a terminator, more bytes only extend what follows it. */
  lemma AfterStreamHeaderSnoc(stream: seq<byte>, c: Chunk)
    requires FindFrom(stream, Terminator, 0).Some?
    ensures FindFrom(stream + c, Terminator, 0).Some?
    ensures AfterStreamHeader(stream + c) == AfterStreamHeader(stream) + c
  {
    FindFromExtend(stream, c, Terminator);
    var k := FindFrom(stream, Terminator, 0).value + |Terminator|;
    assert (stream + c)[k..] == stream[k..] + c;
  }

  /**
   * What the loop evidently means to write: the bytes after the first
   * terminator of the whole received stream, wherever the reads split it.
   */
  function StreamBody(received: seq<Chunk>): seq<byte> {
    AfterStreamHeader(Concat(Live(received)))
  }

  /** On the stream above the corrected loop keeps the content byte. */
  lemma StraddledTerminatorKept()
    ensures StreamBody([[CR, LF], [CR, LF, 65]]) == [65]
  {
    var received: seq<Chunk> := [[CR, LF], [CR, LF, 65]];
    assert LiveCount(received) == 2;
    assert Live(received) == received;
    ConcatPair();
    FindFromIsFirst([CR, LF, CR, LF, 65], Terminator, 0, 0);
  }

  /** When the first read holds the whole terminator, the loop as written and the corrected one agree. */
  lemma BodyAgreesWhenHeaderInFirstRead(received: seq<Chunk>)
    requires LiveCount(received) > 0 && HasTerminator(received[0])
    ensures Body(received) == StreamBody(received)
  {
    var live := Live(received);
    assert live[0] == received[0];
    StripAgreesWhenHeaderFirst(live);
  }

  lemma StripAgreesWhenHeaderFirst(cs: seq<Chunk>)
    requires cs != [] && HasTerminator(cs[0])
    ensures Strip(cs) == AfterStreamHeader(Concat(cs))
  {
    var first, later := cs[0], Concat(cs[1..]);
    FindFromExtend(first, later, Terminator);
    var k := FindFrom(first, Terminator, 0).value + |Terminator|;
    assert (first + later)[k..] == first[k..] + later;
  }

  /**
   * The receive loop corrected: header bytes are kept until the terminator
   * has been seen in all of them together, so a terminator that two reads
   * split is still found.
   */
  method SaveToBuffered(received: seq<Chunk>) returns (file: seq<byte>)
    ensures file == StreamBody(received)
  {
    var header: seq<byte> := [];
    var headerEnded := false;
    file := [];
    var i := 0;
    while true
      invariant i <= LiveCount(received)
      invariant headerEnded == FindFrom(Concat(received[..i]), Terminator, 0).Some?
      invariant file == AfterStreamHeader(Concat(received[..i]))
      invariant !headerEnded ==> header == Concat(received[..i])
      decreases |received| - i
    {
      var chunk := if i < |received| then received[i] else [];
      if |chunk| == 0 {
        LiveEnd(received, i);
        break;
      }
      ghost var stream := Concat(received[..i]);
      assert received[..i + 1] == received[..i] + [chunk];
      ConcatSnoc(received[..i], chunk);
      i := i + 1;
      if !headerEnded {
        header := header + chunk;
        var headerEnd := FindFrom(header, Terminator, 0);
        if headerEnd.Some? {
          file := header[headerEnd.value + |Terminator|..];
          headerEnded := true;
        }
      } else {
        AfterStreamHeaderSnoc(stream, chunk);
        file := file + chunk;
      }
    }
  }
}
