/** The chunked transfer-coding (section 3.6.1 of RFC 2616): what
    HTTPRequest.write and respond emit, and ChunkedRFile, which reads it back
    (python/http/cherrPy-wsgi.py). */
module ChunkedCoding {
  import opened ChunkedTrailer
  import opened PlainStream
  import opened Sequences
  import opened FileObject
  import opened RequestBody
  import opened ChunkSizeLine

  /** What HTTPRequest.write sends for one non-empty chunk. */
  function Frame(chunk: string): string {
    Hex(|chunk|) + CRLF + chunk + CRLF
  }

  /** A chunked body, without its last chunk. */
  function Frames(chunks: seq<string>): string {
    if chunks == [] then "" else Frame(chunks[0]) + Frames(chunks[1..])
  }

  const LAST_CHUNK := "0\r\n\r\n"

  lemma {:induction false} FramesAppend(chunks: seq<string>, chunk: string)
    ensures Frames(chunks + [chunk]) == Frames(chunks) + Frame(chunk)
  {
    if chunks == [] {
      assert [chunk][1..] == [];
    } else {
      FramesAppend(chunks[1..], chunk);
      assert (chunks + [chunk])[1..] == chunks[1..] + [chunk];
      Associates(Frame(chunks[0]), Frames(chunks[1..]), Frame(chunk));
    }
  }

  /** What one _fetch does with the size in the first line and what follows the
      line; counted are the bytes read including that line. */
  datatype Fetched = Fetched(fault: Fault, closed: bool, chunk: string, crlf: string)

  function FetchStep(maxlen: int, counted: nat, size: Parsed, rest: string): Fetched {
    if maxlen != 0 && counted > maxlen then Fetched(MaxSize, false, "", "")
    else if size == NotANumber then Fetched(BadSize, false, "", "")
    else if size.n <= 0 then Fetched(NoFault, true, "", "")
    else if maxlen != 0 && counted + size.n > maxlen then Fetched(EntityTooLarge, false, "", "")
    else
      var chunk := ReadOf(rest, size.n);
      var crlf := ReadOf(rest[|chunk|..], 2);
      Fetched(if crlf == CRLF then NoFault else BadCrlf, false, chunk, crlf)
  }

  /** On any stream: a fetch takes a chunk exactly when a positive size is announced,
      the limit allows line and chunk, and behind the line there are that many bytes and
      CRLF; it closes the body exactly at a size that is not positive. */
  lemma FetchStepExact(maxlen: int, counted: nat, size: Parsed, rest: string)
    ensures var f := FetchStep(maxlen, counted, size, rest);
            && (f.fault == NoFault && !f.closed
                <==> && size.Number? && size.n > 0
                     && (maxlen == 0 || (counted <= maxlen && counted + size.n <= maxlen))
                     && |rest| >= size.n + 2 && rest[size.n..size.n + 2] == "\r\n")
            && (f.fault == NoFault && !f.closed ==> f.chunk == rest[..size.n] && f.crlf == "\r\n")
            && (f.closed <==> size.Number? && size.n <= 0 && (maxlen == 0 || counted <= maxlen))
            && (f.closed ==> f.fault == NoFault && f.chunk == f.crlf == "")
  {
    if size.Number? && size.n > 0 {
      var chunk := ReadOf(rest, size.n);
      assert |rest| >= size.n + 2 ==> rest[|chunk|..][..2] == rest[size.n..size.n + 2];
    }
  }

  /** This first line of a chunk says this size. */
  ghost predicate Announces(line: string, size: Parsed) {
    forall l :: l == line ==> ChunkSize(l) == size
  }

  method ParseSize(line: string) returns (size: Parsed)
    ensures Announces(line, size)
  {
    size := ChunkSize(line);
  }

  lemma AnnouncedIs(line: string, size: Parsed)
    requires Announces(line, size)
    ensures size == ChunkSize(line)
  {
    var l := line;
    assert ChunkSize(l) == size;
  }

  /** A chunk as some client sends it: its first line, and its data. The last chunk has none. */
  datatype Chunk = Chunk(line: string, data: string)

  /** The line gives the length of the data in hexadecimal digits of either case, with
      zeros in front or not, then blanks, and an extension if there is a semicolon. */
  ghost predicate IsChunk(c: Chunk) {
    exists s: string, ds: seq<nat>, blanks: string, extension: string ::
      && c.line == s + blanks + extension + CRLF && InHex(s, ds) && Base16(ds) == |c.data|
      && (forall i :: 0 <= i < |blanks| ==> blanks[i] == ' ' || blanks[i] == '\t')
      && (extension == "" || extension[0] == ';') && '\n' !in extension
  }

  /** Chunks with data, and then one without. */
  ghost predicate AreChunks(chunks: seq<Chunk>) {
    forall i :: 0 <= i < |chunks| ==> IsChunk(chunks[i]) && (chunks[i].data == "" <==> i == |chunks| - 1)
  }

  /** What is on the stream for them. */
  function Coding(chunks: seq<Chunk>): string {
    if chunks == [] then ""
    else
      var c := chunks[0];
      c.line + (if c.data == "" then "" else c.data + CRLF) + Coding(chunks[1..])
  }

  /** The body they carry. */
  function Content(chunks: seq<Chunk>): string {
    if chunks == [] then "" else chunks[0].data + Content(chunks[1..])
  }

  /** The bytes ChunkedRFile counts while it reads them. */
  function Cost(chunks: seq<Chunk>): nat {
    if chunks == [] then 0 else |chunks[0].line| + |chunks[0].data| + Cost(chunks[1..])
  }

  /** The line of a chunk is a line, and says the length of the data. */
  lemma ChunkLine(c: Chunk, more: string, line: string)
    requires IsChunk(c) && IsReadline(c.line + more, -1, line)
    ensures line == c.line && ChunkSize(line) == Number(|c.data|)
  {
    var s, ds: seq<nat>, blanks, extension :|
      && c.line == s + blanks + extension + CRLF && InHex(s, ds) && Base16(ds) == |c.data|
      && (forall i :: 0 <= i < |blanks| ==> blanks[i] == ' ' || blanks[i] == '\t')
      && (extension == "" || extension[0] == ';') && '\n' !in extension;
    SizeOfDigits(s, ds, blanks, extension);
    ValueIsBase16(s, ds);
    DigitsArePlain(s);
    hide ChunkSize, InHex, Base16, Value, AllDigits;
    FirstLine(s + blanks + extension, more, line);
  }

  /** After that line, a fetch takes exactly the chunk. */
  lemma FetchFrame(maxlen: int, counted: nat, chunk: string, tail: string)
    requires chunk != "" && (maxlen != 0 ==> counted + |chunk| <= maxlen)
    ensures FetchStep(maxlen, counted, Number(|chunk|), chunk + (CRLF + tail)) == Fetched(NoFault, false, chunk, CRLF)
  {
    DropPrefix(chunk, CRLF + tail);
    assert ReadOf(chunk + (CRLF + tail), |chunk|) == chunk;
    assert ReadOf(CRLF + tail, 2) == CRLF;
  }

  /** The stream holds exactly these chunks, which have the last one at the end, and then
      tail; without any the body is closed. The limit, if there is one, allows them. */
  ghost predicate WellFormed(pending: string, closed: bool, maxlen: int, bytesRead: nat,
                             chunks: seq<Chunk>, tail: string) {
    && AreChunks(chunks) && (closed <==> chunks == [])
    && pending == Coding(chunks) + tail
    && (maxlen != 0 ==> bytesRead + Cost(chunks) <= maxlen)
  }

  class ChunkedRFile {
    const rfile: CPFileObject
    /** 0 stands for no limit. */
    const maxlen: int
    var bytesRead: nat
    var buffer: string
    var closed: bool

    ghost predicate Valid()
      reads rfile, rfile.rbuf, rfile.sock
    {
      rfile.Valid()
    }

    ghost predicate Holds(chunks: seq<Chunk>, tail: string)
      reads this, rfile, rfile.rbuf, rfile.sock
    {
      WellFormed(rfile.Pending(), closed, maxlen, bytesRead, chunks, tail)
    }

    constructor (rfile: CPFileObject, maxlen: int)
      ensures this.rfile == rfile && this.maxlen == maxlen
      ensures bytesRead == 0 && buffer == "" && !closed
    {
      this.rfile := rfile;
      this.maxlen := maxlen;
      bytesRead, buffer, closed := 0, "", false;
    }

    /** _fetch of an open body, on any stream whatever. */
    method FetchOpen()
      returns (f: Fault, ghost line: string, ghost size: Parsed, ghost rest: string, ghost step: Fetched)
      requires Valid() && !closed
      modifies this`bytesRead, this`buffer, this`closed, rfile.Repr()
      ensures Valid() && (rfile.rbuf == old(rfile.rbuf) || fresh(rfile.rbuf))
      ensures old(rfile.Pending()) == line + rest && IsReadline(old(rfile.Pending()), -1, line)
      ensures Announces(line, size) && step == FetchStep(maxlen, old(bytesRead) + |line|, size, rest)
      ensures f == step.fault && closed == step.closed
      ensures buffer == old(buffer) + step.chunk
      ensures bytesRead == old(bytesRead) + |line| + |step.chunk|
      ensures rest == step.chunk + (step.crlf + rfile.Pending())
    {
      var l := rfile.Readline(-1);
      line, rest := l, rfile.Pending();
      bytesRead := bytesRead + |l|;
      var n := ParseSize(l);
      size := n;
      f, step := FetchSized(n);
    }

    /** The rest of _fetch, after the size line. */
    method FetchSized(size: Parsed) returns (f: Fault, ghost step: Fetched)
      requires Valid() && !closed
      modifies this`bytesRead, this`buffer, this`closed, rfile.Repr()
      ensures Valid() && (rfile.rbuf == old(rfile.rbuf) || fresh(rfile.rbuf))
      ensures step == FetchStep(maxlen, old(bytesRead), size, old(rfile.Pending()))
      ensures && f == step.fault && closed == step.closed
              && buffer == old(buffer) + step.chunk
              && bytesRead == old(bytesRead) + |step.chunk|
              && old(rfile.Pending()) == step.chunk + (step.crlf + rfile.Pending())
    {
      step := FetchStep(maxlen, bytesRead, size, rfile.Pending());
      if maxlen != 0 && bytesRead > maxlen {
        return MaxSize, step;
      }
      if size == NotANumber {
        return BadSize, step;
      }
      if size.n <= 0 {
        closed := true;
        return NoFault, step;
      }
      if maxlen != 0 && bytesRead + size.n > maxlen {
        return EntityTooLarge, step;
      }
      var chunk := rfile.Read(size.n);
      bytesRead := bytesRead + |chunk|;
      buffer := buffer + chunk;
      DropPrefix(chunk, rfile.Pending());
      var crlf := rfile.Read(2);
      f := if crlf == CRLF then NoFault else BadCrlf;
    }

    /** _fetch. From a well-formed body it takes the first chunk, or closes the body. */
    method Fetch(ghost good: bool, ghost chunks: seq<Chunk>, ghost tail: string)
      returns (f: Fault, ghost left: seq<Chunk>)
      requires Valid() && buffer == "" && (good ==> Holds(chunks, tail))
      modifies this`bytesRead, this`buffer, this`closed, rfile.Repr()
      ensures Valid() && (rfile.rbuf == old(rfile.rbuf) || fresh(rfile.rbuf))
      ensures good ==> f == NoFault && Holds(left, tail) && Content(chunks) == buffer + Content(left)
                       && bytesRead + Cost(left) == old(bytesRead) + Cost(chunks)
      ensures (f == NoFault && buffer == "" ==> closed) && (old(closed) ==> closed)
      ensures good && buffer == "" ==> left == []
    {
      hide CPFileObject.Valid, CPFileObject.Pending, Content, Coding, Cost, AreChunks;
      f, left := NoFault, chunks;
      assert buffer + Content(chunks) == Content(chunks);
      if closed {
        return;
      }
      ghost var counted := bytesRead;
      ghost var line, size, after, step;
      f, line, size, after, step := FetchOpen();
      FetchStepExact(maxlen, counted + |line|, size, after);
      hide FetchStep;
      assert buffer == step.chunk;
      if good {
        left := HeldStep(maxlen, counted, chunks, tail, line, size, after, step, rfile.Pending());
      }
    }

    /** read(size) with a positive size. On a well-formed body it returns the
        next size bytes of the chunks put together, or what there is, wherever
        the chunks end; it comes up short only once the body is closed. */
    method Read(size: nat, ghost good: bool, ghost chunks: seq<Chunk>, ghost tail: string)
      returns (data: string, f: Fault, ghost left: seq<Chunk>)
      requires Valid() && size > 0 && (good ==> Holds(chunks, tail))
      modifies this`bytesRead, this`buffer, this`closed, rfile.Repr()
      ensures Valid() && (rfile.rbuf == old(rfile.rbuf) || fresh(rfile.rbuf))
      ensures |data| <= size && (f == NoFault && |data| < size ==> closed) && (old(closed) ==> closed)
      ensures good ==> && f == NoFault && Holds(left, tail)
                       && old(buffer) + Content(chunks) == data + (buffer + Content(left))
                       && bytesRead + Cost(left) == old(bytesRead) + Cost(chunks)
                       && (|data| < size ==> buffer == "" && left == [])
    {
      hide CPFileObject.Valid, CPFileObject.Pending, Content, Cost, WellFormed;
      ghost var whole := buffer + Content(chunks);
      data, f, left := "", NoFault, chunks;
      assert whole == data + (buffer + Content(left));
      while true
        invariant Valid() && (rfile.rbuf == old(rfile.rbuf) || fresh(rfile.rbuf))
        invariant |data| <= size && f == NoFault && (old(closed) ==> closed)
        invariant good ==> Holds(left, tail) && whole == data + (buffer + Content(left))
        invariant good ==> bytesRead + Cost(left) == old(bytesRead) + Cost(chunks)
        decreases size - |data|
      {
        if |data| >= size {
          return;
        }
        if buffer == "" {
          assert buffer + Content(left) == Content(left);
          f, left := Fetch(good, left, tail);
          if f != NoFault || buffer == "" {
            return;
          }
        }
        data := TakeFromBuffer(size, data, Content(left));
      }
    }

    /** Moves what is still wanted from the buffer to the result. */
    method TakeFromBuffer(size: nat, data: string, ghost rest: string) returns (data': string)
      requires |data| < size && buffer != ""
      modifies this`buffer
      ensures |data| < |data'| <= size && data' + (buffer + rest) == data + (old(buffer) + rest)
    {
      var remaining := Min(size - |data|, |buffer|);
      Moved(data, buffer, remaining, rest);
      data' := data + buffer[..remaining];
      buffer := buffer[remaining..];
    }

    /** read_trailer_lines: what the loop on a plain string takes from what is
        pending; TrailerExact says when that is a fault, and which. */
    method ReadTrailerLines() returns (lines: seq<string>, f: Fault)
      requires Valid()
      modifies this`bytesRead, rfile.Repr()
      ensures Valid() && (rfile.rbuf == old(rfile.rbuf) || fresh(rfile.rbuf))
      ensures bytesRead + |rfile.Pending()| == old(bytesRead) + |old(rfile.Pending())|
      ensures !closed ==> f == NotClosed && lines == [] && rfile.Pending() == old(rfile.Pending())
      ensures closed ==>
                Trailer(lines, f, rfile.Pending()) == ParseTrailer(old(rfile.Pending()), maxlen, old(bytesRead))
    {
      if !closed {
        return [], NotClosed;
      }
      lines, f := ReadLinesToEnd();
    }

    method ReadLinesToEnd() returns (lines: seq<string>, f: Fault)
      requires Valid()
      modifies this`bytesRead, rfile.Repr()
      ensures Valid() && (rfile.rbuf == old(rfile.rbuf) || fresh(rfile.rbuf))
      ensures bytesRead + |rfile.Pending()| == old(bytesRead) + |old(rfile.Pending())|
      ensures Trailer(lines, f, rfile.Pending()) == ParseTrailer(old(rfile.Pending()), maxlen, old(bytesRead))
    {
      lines, f := [], NoFault;
      hide ParseTrailer, LineOf, CPFileObject.Valid, CPFileObject.Pending, Stops, FaultOf, Continues;
      ghost var t := ParseTrailer(rfile.Pending(), maxlen, bytesRead);
      ContinuesAtFirst(t);
      var more := true;
      while more
        invariant Valid() && (rfile.rbuf == old(rfile.rbuf) || fresh(rfile.rbuf))
        invariant bytesRead + |rfile.Pending()| == old(bytesRead) + |old(rfile.Pending())|
        invariant more ==> f == NoFault && Continues(t, lines, ParseTrailer(rfile.Pending(), maxlen, bytesRead))
        invariant !more ==> t == Trailer(lines, f, rfile.Pending())
        decreases more, |rfile.Pending()|
      {
        ghost var s, counted := rfile.Pending(), bytesRead;
        var line;
        line, f, more := NextTrailerLine();
        RoundGoes(t, lines, maxlen, s, counted, line, rfile.Pending());
        if more {
          lines := lines + [line];
        }
      }
    }

    /** One round of the loop; more is false when it stops. */
    method NextTrailerLine() returns (line: string, f: Fault, more: bool)
      requires Valid()
      modifies this`bytesRead, rfile.Repr()
      ensures Valid() && (rfile.rbuf == old(rfile.rbuf) || fresh(rfile.rbuf))
      ensures line == LineOf(old(rfile.Pending())) && old(rfile.Pending()) == line + rfile.Pending()
      ensures more <==> !Stops(line, maxlen, old(bytesRead))
      ensures f == if more then NoFault else FaultOf(line, maxlen, old(bytesRead))
      ensures bytesRead == old(bytesRead) + |line| && (more ==> line != "")
    {
      line := NextLine();
      if line == "" {
        return line, BadTrailer, false;
      }
      bytesRead := bytesRead + |line|;
      if maxlen != 0 && bytesRead > maxlen {
        return line, EntityTooLarge, false;
      }
      if line == CRLF {
        return line, NoFault, false;
      }
      if !EndsLine(line) {
        return line, BadTrailer, false;
      }
      return line, NoFault, true;
    }

    method NextLine() returns (line: string)
      requires Valid()
      modifies rfile.Repr()
      ensures Valid() && (rfile.rbuf == old(rfile.rbuf) || fresh(rfile.rbuf))
      ensures line == LineOf(old(rfile.Pending()))
      ensures old(rfile.Pending()) == line + rfile.Pending()
    {
      ghost var before := rfile.Pending();
      line := rfile.Readline(-1);
      LineSatisfies(before);
      ReadlineUnique(before, -1, line, LineOf(before));
    }
  }

  /** After these lines, the parse whose result is t goes on as one with this result. */
  ghost predicate Continues(t: Trailer, lines: seq<string>, more: Trailer) {
    t == Trailer(lines + more.lines, more.fault, more.rest)
  }

  lemma ContinuesStep(t: Trailer, lines: seq<string>, line: string, more: Trailer)
    requires Continues(t, lines, Trailer([line] + more.lines, more.fault, more.rest))
    ensures Continues(t, lines + [line], more)
  {
    Associates(lines, [line], more.lines);
  }

  lemma ContinuesAtFirst(t: Trailer)
    ensures Continues(t, [], t)
  {
  }

  /** One round of the loop that reads the trailer lines. */
  lemma RoundGoes(t: Trailer, lines: seq<string>, maxlen: int, s: string, counted: nat, line: string, rest: string)
    requires Continues(t, lines, ParseTrailer(s, maxlen, counted)) && s == line + rest && line == LineOf(s)
    ensures if Stops(line, maxlen, counted) then t == Trailer(lines, FaultOf(line, maxlen, counted), rest)
            else Continues(t, lines + [line], ParseTrailer(rest, maxlen, counted + |line|))
  {
    hide ParseTrailer, LineOf, Stops, FaultOf;
    ParseStep(s, maxlen, counted, line, rest);
    if Stops(line, maxlen, counted) {
      assert lines + [] == lines;
    } else {
      hide Continues;
      ContinuesStep(t, lines, line, ParseTrailer(rest, maxlen, counted + |line|));
    }
  }

  lemma Moved(data: string, buffer: string, n: nat, rest: string)
    requires n <= |buffer|
    ensures data + (buffer + rest) == (data + buffer[..n]) + (buffer[n..] + rest)
  {
  }

  /** A fetch from a well-formed body. */
  lemma HeldStep(maxlen: int, counted: nat, chunks: seq<Chunk>, tail: string,
                 line: string, size: Parsed, after: string, step: Fetched, pending: string)
    returns (left: seq<Chunk>)
    requires WellFormed(line + after, false, maxlen, counted, chunks, tail) && IsReadline(line + after, -1, line)
    requires Announces(line, size) && step == FetchStep(maxlen, counted + |line|, size, after)
    requires after == step.chunk + (step.crlf + pending)
    ensures step.fault == NoFault && (step.chunk == "" ==> left == [])
    ensures Content(chunks) == step.chunk + Content(left)
    ensures counted + |line| + |step.chunk| + Cost(left) == counted + Cost(chunks)
    ensures WellFormed(pending, step.closed, maxlen, counted + |line| + |step.chunk|, left, tail)
  {
    hide Announces, IsChunk, ChunkSize, Coding, IsReadline;
    var c := chunks[0];
    left := chunks[1..];
    var more := Coding(left) + tail;
    CodingStep(chunks, tail);
    ChunkLine(c, if c.data == "" then more else c.data + (CRLF + more), line);
    AnnouncedIs(line, size);
    assert Content(chunks) == c.data + Content(left) && Cost(chunks) == |line| + |c.data| + Cost(left);
    assert left == [] <==> c.data == "";
    LaterAreChunks(chunks);
    hide AreChunks, Content, Cost;
    if c.data == "" {
      SameTail(line, after, more);
    } else {
      SameTail(line, after, c.data + (CRLF + more));
      FetchFrame(maxlen, counted + |line|, c.data, more);
      SameTail(c.data, CRLF + pending, CRLF + more);
      SameTail(CRLF, pending, more);
    }
  }

  lemma LaterAreChunks(chunks: seq<Chunk>)
    requires AreChunks(chunks) && chunks != []
    ensures AreChunks(chunks[1..])
  {
    hide IsChunk;
  }

  lemma CodingStep(chunks: seq<Chunk>, tail: string)
    requires chunks != []
    ensures var c, more := chunks[0], Coding(chunks[1..]) + tail;
            Coding(chunks) + tail == c.line + if c.data == "" then more else c.data + (CRLF + more)
  {
    var c, more := chunks[0], Coding(chunks[1..]);
    if c.data == "" {
      assert c.line + "" == c.line;
      Associates(c.line, more, tail);
    } else {
      Associates(c.line, c.data + CRLF, more);
      Associates(c.line, c.data + CRLF + more, tail);
      Associates(c.data + CRLF, more, tail);
      Associates(c.data, CRLF, more + tail);
    }
  }

  /** What HTTPRequest sends for these pieces is such a coding. */
  function AsChunks(pieces: seq<string>): seq<Chunk> {
    if pieces == [] then [Chunk("0" + CRLF, "")]
    else [Chunk(Hex(|pieces[0]|) + CRLF, pieces[0])] + AsChunks(pieces[1..])
  }

  lemma {:induction false} PiecesAreChunks(pieces: seq<string>)
    requires "" !in pieces
    ensures AsChunks(pieces) != [] && AreChunks(AsChunks(pieces)) && Content(AsChunks(pieces)) == Join(pieces)
    ensures Coding(AsChunks(pieces)) + CRLF == Frames(pieces) + LAST_CHUNK
  {
    hide IsChunk;
    if pieces == [] {
      HexIsChunk("");
      assert Hex(0) == "0";
      var c := Chunk("0" + CRLF, "");
      assert [c][1..] == [] && Coding([]) == "" && Content([]) == "";
      assert Coding([c]) == c.line;
    } else {
      var p, more := pieces[0], AsChunks(pieces[1..]);
      var c := Chunk(Hex(|p|) + CRLF, p);
      PiecesAreChunks(pieces[1..]);
      HexIsChunk(p);
      assert ([c] + more)[1..] == more;
      assert p in pieces;
      Associates(c.line, p + CRLF, Coding(more));
      Associates(c.line + (p + CRLF), Coding(more), CRLF);
      Associates(c.line, p, CRLF);
      Associates(Frame(p), Frames(pieces[1..]), LAST_CHUNK);
    }
  }

  lemma HexIsChunk(data: string)
    ensures IsChunk(Chunk(Hex(|data|) + CRLF, data))
  {
    hide Hex, IsChunk, InHex, Base16;
    var ds := HexDigits(|data|);
    var s := Hex(|data|);
    assert s + "" + "" == s;
    IsChunkFrom(s, ds, "", "", data);
  }

  lemma IsChunkFrom(s: string, ds: seq<nat>, blanks: string, extension: string, data: string)
    requires InHex(s, ds) && Base16(ds) == |data|
    requires forall i :: 0 <= i < |blanks| ==> blanks[i] == ' ' || blanks[i] == '\t'
    requires (extension == "" || extension[0] == ';') && '\n' !in extension
    ensures IsChunk(Chunk(s + blanks + extension + CRLF, data))
  {
    hide InHex, Base16;
  }
}
