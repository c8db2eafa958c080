/** The chunked coding end to end: what HTTPRequest.respond sends is what any
    sequence of ChunkedRFile.read calls and read_trailer_lines take apart
    (python/http/cherrPy-wsgi.py). */
module ChunkedMessage {
  import opened PlainStream
  import opened Sequences
  import opened FileObject
  import opened RequestBody
  import opened ChunkedTrailer
  import opened ChunkedCoding
  import opened WsgiApp

  /** Reading these sizes from a plain string, one after the other. */
  function Cuts(s: string, sizes: seq<nat>): (pieces: seq<string>)
    ensures |pieces| == |sizes|
    decreases |sizes|
  {
    if sizes == [] then []
    else
      var piece := ReadOf(s, sizes[0]);
      [piece] + Cuts(s[|piece|..], sizes[1..])
  }

  function Sum(sizes: seq<nat>): nat {
    if sizes == [] then 0 else sizes[0] + Sum(sizes[1..])
  }

  lemma CutsStep(s: string, sizes: seq<nat>, data: string, rest: string)
    requires sizes != [] && s == data + rest && |data| <= sizes[0] && (|data| < sizes[0] ==> rest == "")
    ensures Cuts(s, sizes) == [data] + Cuts(rest, sizes[1..])
  {
    assert ReadOf(s, sizes[0]) == data;
    DropPrefix(data, rest);
  }

  /** Pieces put together are the string, once enough was asked for. */
  lemma {:induction false} CutsAreThePieces(s: string, sizes: seq<nat>)
    ensures Join(Cuts(s, sizes)) <= s
    ensures Sum(sizes) >= |s| ==> Join(Cuts(s, sizes)) == s
    decreases |sizes|
  {
    if sizes != [] {
      var piece := ReadOf(s, sizes[0]);
      CutsAreThePieces(s[|piece|..], sizes[1..]);
      assert s == piece + s[|piece|..];
      assert Cuts(s, sizes)[1..] == Cuts(s[|piece|..], sizes[1..]);
    }
  }

  /** On a well-formed body, reads of any positive sizes return what the same reads
      of the chunks put together return; and once more is asked for than there is,
      the body is closed. */
  method ReadPieces(body: ChunkedRFile, sizes: seq<nat>, ghost chunks: seq<Chunk>, ghost tail: string)
    returns (pieces: seq<string>, f: Fault, ghost left: seq<Chunk>)
    requires body.Valid() && body.Holds(chunks, tail) && 0 !in sizes
    modifies body`bytesRead, body`buffer, body`closed, body.rfile.Repr()
    ensures body.Valid() && (body.rfile.rbuf == old(body.rfile.rbuf) || fresh(body.rfile.rbuf))
    ensures f == NoFault && body.Holds(left, tail)
    ensures pieces == Cuts(old(body.buffer) + Content(chunks), sizes)
    ensures body.bytesRead + Cost(left) == old(body.bytesRead) + Cost(chunks)
    ensures old(body.closed) || Sum(sizes) > |old(body.buffer) + Content(chunks)| ==> body.closed
    decreases |sizes|
  {
    hide ChunkedRFile.Holds;
    pieces, f, left := [], NoFault, chunks;
    if sizes != [] {
      var data;
      data, f, left := ReadNext(body, sizes[0], left, tail);
      CutsStep(old(body.buffer) + Content(chunks), sizes, data, body.buffer + Content(left));
      var others;
      others, f, left := ReadPieces(body, sizes[1..], left, tail);
      pieces := [data] + others;
    }
  }

  method ReadNext(body: ChunkedRFile, size: nat, ghost chunks: seq<Chunk>, ghost tail: string)
    returns (data: string, f: Fault, ghost left: seq<Chunk>)
    requires body.Valid() && body.Holds(chunks, tail) && size > 0
    modifies body`bytesRead, body`buffer, body`closed, body.rfile.Repr()
    ensures body.Valid() && (body.rfile.rbuf == old(body.rfile.rbuf) || fresh(body.rfile.rbuf))
    ensures f == NoFault && body.Holds(left, tail)
    ensures old(body.buffer) + Content(chunks) == data + (body.buffer + Content(left))
    ensures body.bytesRead + Cost(left) == old(body.bytesRead) + Cost(chunks)
    ensures |data| <= size && (|data| < size ==> body.closed && body.buffer + Content(left) == "")
    ensures old(body.closed) ==> body.closed
  {
    data, f, left := body.Read(size, true, chunks, tail);
  }

  /** Reading on until the body has come up short, and then the trailer, gives the whole
      body, however the client has written the sizes, and the trailer that the loop on a
      plain string finds in what follows it. */
  method ReadMessage(body: ChunkedRFile, sizes: seq<nat>, ghost chunks: seq<Chunk>, ghost tail: string)
    returns (pieces: seq<string>, trailer: seq<string>, f: Fault)
    requires body.Valid() && body.buffer == "" && body.Holds(chunks, tail)
    requires 0 !in sizes && Sum(sizes) > |Content(chunks)|
    modifies body`bytesRead, body`buffer, body`closed, body.rfile.Repr()
    ensures body.rfile.Valid() && Join(pieces) == Content(chunks) && pieces == Cuts(Content(chunks), sizes)
    ensures Trailer(trailer, f, body.rfile.Pending())
            == ParseTrailer(tail, body.maxlen, old(body.bytesRead) + Cost(chunks))
  {
    hide ParseTrailer, ChunkedRFile.Holds, Cost, Cuts;
    ghost var left;
    pieces, f, left := ReadPieces(body, sizes, chunks, tail);
    assert "" + Content(chunks) == Content(chunks);
    CutsAreThePieces(Content(chunks), sizes);
    NothingLeft(body, left, tail);
    trailer, f := body.ReadTrailerLines();
  }

  lemma NothingLeft(body: ChunkedRFile, left: seq<Chunk>, tail: string)
    requires body.Holds(left, tail) && body.closed
    ensures body.rfile.Pending() == tail && Cost(left) == 0
  {
    assert Coding([]) + tail == tail;
  }

  /** A chunked response, as Respond states it, is a well-formed chunked body of the pieces
      written, followed by an empty trailer; so whoever reads it as ReadMessage does gets
      the pieces, put together, and is left just behind it. */
  lemma ResponseIsWellFormed(app: seq<AppOp>, maxlen: int, rest: string)
    requires maxlen == 0 || Cost(AsChunks(Written(app))) + 2 <= maxlen
    ensures var chunks := AsChunks(Written(app));
            && WellFormed(Frames(Written(app)) + LAST_CHUNK + rest, false, maxlen, 0, chunks, CRLF + rest)
            && Content(chunks) == Join(Written(app))
            && ParseTrailer(CRLF + rest, maxlen, Cost(chunks)) == Trailer([], NoFault, rest)
  {
    NothingEmptyWritten(app);
    PiecesAreChunks(Written(app));
    EmptyTrailer(rest, maxlen, Cost(AsChunks(Written(app))));
    Associates(Coding(AsChunks(Written(app))), CRLF, rest);
  }
}
