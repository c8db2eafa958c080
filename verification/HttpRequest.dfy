/** HTTPRequest of python/http/cherrPy-wsgi.py from the end of the request
    headers to the end of the response, for a request whose body is not
    chunked: what is read from the connection and what is sent. */
module HttpRequest {
  import opened PlainStream
  import opened Sequences
  import opened FileObject
  import opened RequestBody
  import opened ChunkedTrailer
  import opened ChunkSizeLine
  import opened ChunkedCoding
  import opened WsgiApp

  /** One exchange as it was when it began: whole is what was pending on the
      connection, cl the Content-Length, sent what had been sent, block the header
      block of the response, closing whether the connection is to be closed anyway. */
  datatype Exchange = Exchange(
    app: seq<AppOp>, whole: string, cl: int, sent: string, block: string,
    head: Head, http11: bool, isHead: bool, closing: bool)
  {
    function LastHead(): Head {
      EndHead(app, Unstarted, head)
    }

    predicate Kept() {
      !closing && !Closes(LastHead(), http11, isHead)
    }

    function Remains(): int {
      Left(app, whole, cl, Unstarted, Kept())
    }
  }

  /** The body of a response in these pieces. */
  function Payload(chunked: bool, pieces: seq<string>): string {
    if chunked then Frames(pieces) else Join(pieces)
  }

  lemma PayloadAppend(chunked: bool, pieces: seq<string>, piece: string, front: string)
    ensures front + Payload(chunked, pieces) + (if chunked && piece != "" then Frame(piece) else piece)
            == front + Payload(chunked, pieces + if piece != "" then [piece] else [])
  {
    var more := if chunked && piece != "" then Frame(piece) else piece;
    if piece != "" {
      FramesAppend(pieces, piece);
      JoinAppend(pieces, piece);
      Associates(front, Payload(chunked, pieces), more);
    } else {
      assert pieces + [] == pieces;
      assert front + Payload(chunked, pieces) + "" == front + Payload(chunked, pieces);
    }
  }

  lemma NoPayload(chunked: bool, s: string)
    ensures s + Payload(chunked, []) == s
  {
  }

  /** One step of the application, which takes data from the stream s. */
  lemma Goes(x: Exchange, i: nat, phase: Phase, head: Head, closes: bool,
             s: string, remaining: int, s': string, remaining': int)
    requires i < |x.app| && !phase.Raised? && x.LastHead() == EndHead(x.app[i..], phase, head)
    requires var data := Takes(x.app[i], phase, s, remaining, !closes);
             s == data + s' && remaining' == remaining - |data|
    requires x.app[i].Write? && phase.Started? ==> closes == (x.closing || Closes(head, x.http11, x.isHead))
    ensures var next := PhaseStep(phase, x.app[i]);
            && EndPhase(x.app[i..], phase) == EndPhase(x.app[i + 1..], next)
            && x.LastHead() == EndHead(x.app[i + 1..], next, HeadStep(phase, head, x.app[i]))
            && Left(x.app[i..], s, remaining, phase, x.Kept()) == Left(x.app[i + 1..], s', remaining', next, x.Kept())
  {
    hide EndPhase, EndHead, Left, Closes, Drained, Reads;
    Onward(x.app, i, s, remaining, phase, head, x.Kept());
    if x.app[i].Write? && phase.Started? {
      HeadIsFixed(x.app[i + 1..], Sent, head);
    }
    DropPrefix(Takes(x.app[i], phase, s, remaining, !closes), s');
  }

  /** What has been read so far stays in front of what is left of the whole. */
  lemma StaysFramed(whole: string, cl: int, s: string, remaining: int, data: string, s': string)
    requires 0 <= cl - remaining <= |whole| && s == whole[cl - remaining..] && s == data + s'
    ensures 0 <= cl - (remaining - |data|) <= |whole| && s' == whole[cl - (remaining - |data|)..]
  {
  }

  lemma Opens(x: Exchange)
    ensures EndPhase(x.app, Unstarted) == EndPhase(x.app[0..], Unstarted)
    ensures x.LastHead() == EndHead(x.app[0..], Unstarted, x.head)
    ensures x.Remains() == Left(x.app[0..], x.whole, x.cl, Unstarted, x.Kept())
  {
    assert x.app[0..] == x.app;
  }

  lemma RaisedAtLast(app: seq<AppOp>, head: Head, s: string, remaining: int, kept: bool)
    ensures EndPhase(app, Raised) == Raised && EndHead(app, Raised, head) == head
    ensures Left(app, s, remaining, Raised, kept) == remaining
  {
    HeadIsFixed(app, Raised, head);
  }

  lemma NothingFollows(phase: Phase, head: Head, s: string, remaining: int, kept: bool)
    ensures EndPhase([], phase) == phase && EndHead([], phase, head) == head
    ensures Left([], s, remaining, phase, kept)
            == remaining - if phase.Started? && kept then |Drained(s, remaining)| else 0
  {
  }

  /** What remains in the end says whether the reads of the application stayed within the body. */
  lemma Consequences(x: Exchange)
    requires x.cl >= 0
    ensures 0 <= x.cl - x.Remains() <= |x.whole|
    ensures x.Remains() >= 0 <==> StaysInBody(x.app, x.whole, x.cl, Unstarted, x.Kept())
    ensures x.Kept() && EndPhase(x.app, Unstarted) in {Started, Sent} ==>
              (x.whole[x.cl - x.Remains()..] == x.whole[Min(x.cl, |x.whole|)..]
               <==> StaysInBody(x.app, x.whole, x.cl, Unstarted, true))
  {
    hide Left, StaysInBody, EndPhase, Exchange.Kept;
    StaysInBodyExactly(x.app, x.whole, x.cl, Unstarted, x.Kept());
    if x.Kept() && EndPhase(x.app, Unstarted) in {Started, Sent} {
      KeptIsFramedExactly(x.app, x.whole, x.cl);
    }
  }

  /** Exactly when bytes go out on a kept connection with nothing to say where they end:
      the status is one of those without a body, and yet the application writes one. */
  lemma UnframedExactly(x: Exchange)
    ensures x.Kept() && !x.LastHead().contentLength && !Chunks(x.LastHead(), x.http11, x.isHead)
              && Payload(false, Written(x.app)) != ""
            <==> !x.closing && !x.LastHead().contentLength && Written(x.app) != []
                 && (x.LastHead().status < 200 || x.LastHead().status in {204, 205, 304})
  {
    hide Written, EndHead;
    NothingEmptyWritten(x.app);
    var pieces := Written(x.app);
    assert pieces != [] ==> pieces[0] in pieces;
  }

  lemma SomeBytesAreUnframed(whole: string, cl: int, sent: string, block: string)
    ensures var app := [Start(204, false, false, false), Write("x")];
            var x := Exchange(app, whole, cl, sent, block, Head(200, false), true, false, false);
            && EndPhase(app, Unstarted) == Sent && x.Kept()
            && !Chunks(x.LastHead(), true, false) && Payload(false, Written(app)) == "x"
  {
    var first, last := Start(204, false, false, false), Write("x");
    var app := [first, last];
    assert app[1..] == [last] && [last][1..] == [];
    HeadIsFixed([], Sent, Head(204, false));
    assert EndHead([last], Started, Head(204, false)) == EndHead([], Sent, Head(204, false));
    WrittenStep(app, 0);
    WrittenStep(app, 1);
    assert app[..2] == app && Written(app) == ["x"];
    assert Join(["x"]) == "x" + Join([]);
  }

  lemma TakesAre(op: AppOp, phase: Phase, s: string, remaining: int)
    ensures forall kept :: Takes(op, phase, s, remaining, kept)
                           == (match op
                               case Start(_, _, _, _) => ""
                               case Write(_) => if phase.Started? && kept then Drained(s, remaining) else ""
                               case _ => Reads(op, s, remaining))
  {
  }

  lemma LineIsRead(size: Size, s: string, remaining: int, line: string)
    requires IsBodyLine(s, remaining, size, line)
    ensures line == Reads(DoReadline(size), s, remaining)
  {
    if remaining != 0 {
      ReadlineIs(s, Asked(remaining, size), line);
    }
  }

  class HTTPRequest {
    const conn: CPFileObject
    /** Everything sent on conn.wfile. */
    var wfile: string
    var rfile: KnownLengthRFile?
    const http11: bool
    const isHead: bool
    var status: int
    var hasContentLength: bool
    var hasConnection: bool
    /** The headers send_headers adds. */
    var added: seq<string>
    var started: bool
    var sentHeaders: bool
    var chunkedWrite: bool
    var closeConnection: bool

    constructor (conn: CPFileObject, http11: bool, isHead: bool, closeConnection: bool, sent: string)
      ensures this.conn == conn && rfile == null && wfile == sent
      ensures Now() == Unstarted && LastHead() == Head(200, false)
      ensures !chunkedWrite && this.closeConnection == closeConnection
      ensures this.http11 == http11 && this.isHead == isHead
    {
      this.conn := conn;
      this.http11, this.isHead := http11, isHead;
      this.closeConnection := closeConnection;
      wfile, rfile := sent, null;
      status, hasContentLength, hasConnection, added := 200, false, false, [];
      started, sentHeaders, chunkedWrite := false, false, false;
    }

    ghost predicate Valid()
      reads this, rfile, conn, conn.rbuf, conn.sock
    {
      conn.Valid() && rfile != null && rfile.rfile == conn && (sentHeaders ==> started)
    }

    ghost function Now(): Phase
      reads this
    {
      if sentHeaders then Sent else if started then Started else Unstarted
    }

    ghost function LastHead(): Head
      reads this
    {
      Head(status, hasContentLength)
    }

    /** The first half of send_headers: chunking, closing, and the headers that say so. */
    method Decide()
      modifies this`added, this`chunkedWrite, this`closeConnection
      ensures chunkedWrite == (old(chunkedWrite) || Chunks(LastHead(), http11, isHead))
      ensures closeConnection == (old(closeConnection) || Closes(LastHead(), http11, isHead))
      ensures added == old(added) + (if Chunks(LastHead(), http11, isHead) then ["Transfer-Encoding: chunked"] else [])
                                  + (if hasConnection || http11 != closeConnection then []
                                     else if http11 then ["Connection: close"] else ["Connection: Keep-Alive"])
    {
      if status == 413 {
        closeConnection := true;
      } else if !hasContentLength {
        if MayHaveBody(status) {
          if http11 && !isHead {
            chunkedWrite := true;
            added := added + ["Transfer-Encoding: chunked"];
          } else {
            closeConnection := true;
          }
        }
      }
      if !hasConnection {
        if http11 {
          if closeConnection {
            added := added + ["Connection: close"];
          }
        } else if !closeConnection {
          added := added + ["Connection: Keep-Alive"];
        }
      }
    }

    /** send_headers: decides about chunking and closing, and reads what is left
        of the body unless the connection is going to be closed. */
    method SendHeaders(block: string)
      requires Valid()
      modifies this`wfile, this`added, this`chunkedWrite, this`closeConnection, rfile, conn.Repr()
      ensures Valid() && (conn.rbuf == old(conn.rbuf) || fresh(conn.rbuf))
      ensures chunkedWrite == (old(chunkedWrite) || Chunks(LastHead(), http11, isHead))
      ensures closeConnection == (old(closeConnection) || Closes(LastHead(), http11, isHead))
      ensures var data := if closeConnection then "" else Drained(old(conn.Pending()), old(rfile.remaining));
              old(conn.Pending()) == data + conn.Pending() && rfile.remaining == old(rfile.remaining) - |data|
      ensures wfile == old(wfile) + block
    {
      hide CPFileObject.Valid, CPFileObject.Pending, BodyRead, ReadStays;
      Decide();
      ghost var before := conn.Pending();
      assert before == "" + before;
      if !closeConnection {
        var remaining := rfile.remaining;
        if remaining > 0 {
          var data := rfile.Read(Sized(remaining));
        }
      }
      wfile := wfile + block;
    }

    /** HTTPRequest.write */
    method WriteChunk(chunk: string)
      modifies this`wfile
      ensures wfile == old(wfile) + if chunkedWrite && chunk != "" then Frame(chunk) else chunk
    {
      if chunkedWrite && chunk != "" {
        wfile := wfile + (Hex(|chunk|) + CRLF + chunk + CRLF);
      } else {
        wfile := wfile + chunk;
      }
    }

    /** The reading steps of the application, one reader each. */
    method ReadData(size: Size)
      requires Valid()
      modifies rfile, conn.Repr()
      ensures Valid() && (conn.rbuf == old(conn.rbuf) || fresh(conn.rbuf))
      ensures var data := Reads(DoRead(size), old(conn.Pending()), old(rfile.remaining));
              old(conn.Pending()) == data + conn.Pending() && rfile.remaining == old(rfile.remaining) - |data|
    {
      hide CPFileObject.Valid, CPFileObject.Pending, BodyRead, ReadStays;
      var data := rfile.Read(size);
    }

    method ReadLine(size: Size)
      requires Valid()
      modifies rfile, conn.Repr()
      ensures Valid() && (conn.rbuf == old(conn.rbuf) || fresh(conn.rbuf))
      ensures var data := Reads(DoReadline(size), old(conn.Pending()), old(rfile.remaining));
              old(conn.Pending()) == data + conn.Pending() && rfile.remaining == old(rfile.remaining) - |data|
    {
      hide CPFileObject.Valid, CPFileObject.Pending, ReadlineOf, LineStays, IsBodyLine, Reads;
      ghost var before, remaining := conn.Pending(), rfile.remaining;
      var data := rfile.Readline(size);
      LineIsRead(size, before, remaining, data);
    }

    method ReadLines(sizehint: int)
      requires Valid()
      modifies rfile, conn.Repr()
      ensures Valid() && (conn.rbuf == old(conn.rbuf) || fresh(conn.rbuf))
      ensures var data := Reads(DoReadlines(sizehint), old(conn.Pending()), old(rfile.remaining));
              old(conn.Pending()) == data + conn.Pending() && rfile.remaining == old(rfile.remaining) - |data|
    {
      hide CPFileObject.Valid, CPFileObject.Pending, BodyLines, Join, LinesStay;
      var lines := rfile.Readlines(sizehint);
    }

    method ReadStep(op: AppOp)
      requires Valid() && (op.DoRead? || op.DoReadline? || op.DoReadlines?)
      modifies rfile, conn.Repr()
      ensures Valid() && (conn.rbuf == old(conn.rbuf) || fresh(conn.rbuf))
      ensures var data := Reads(op, old(conn.Pending()), old(rfile.remaining));
              old(conn.Pending()) == data + conn.Pending() && rfile.remaining == old(rfile.remaining) - |data|
    {
      hide CPFileObject.Valid, CPFileObject.Pending, Reads;
      match op
      case DoRead(size) => ReadData(size);
      case DoReadline(size) => ReadLine(size);
      case DoReadlines(sizehint) => ReadLines(sizehint);
    }

    /** What has been sent after these pieces: nothing before the headers, and then
        the header block and the body so far, framed as the last head decides. */
    ghost predicate Progress(x: Exchange, pieces: seq<string>)
      reads this
    {
      && http11 == x.http11 && isHead == x.isHead
      && (!sentHeaders ==> wfile == x.sent && pieces == [] && !chunkedWrite && closeConnection == x.closing)
      && (sentHeaders ==>
            && chunkedWrite == Chunks(LastHead(), http11, isHead)
            && closeConnection == (x.closing || Closes(LastHead(), http11, isHead))
            && wfile == x.sent + x.block + Payload(chunkedWrite, pieces))
    }

    method EnsureHeaders(ghost x: Exchange, block: string, ghost pieces: seq<string>)
      requires Valid() && Progress(x, pieces) && started && block == x.block
      modifies this, rfile, conn.Repr()
      ensures Valid() && rfile == old(rfile) && (conn.rbuf == old(conn.rbuf) || fresh(conn.rbuf))
      ensures Progress(x, pieces) && sentHeaders && started && LastHead() == old(LastHead())
      ensures var data := if old(sentHeaders) || closeConnection then ""
                          else Drained(old(conn.Pending()), old(rfile.remaining));
              old(conn.Pending()) == data + conn.Pending() && rfile.remaining == old(rfile.remaining) - |data|
    {
      hide CPFileObject.Valid, CPFileObject.Pending, Payload, Drained, Chunks, Closes;
      ghost var before := conn.Pending();
      assert before == "" + before;
      if !sentHeaders {
        sentHeaders := true;
        SendHeaders(block);
        NoPayload(chunkedWrite, wfile);
      }
    }

    /** A write of the application, as the gateway makes it. */
    method WriteStep(chunk: string, ghost x: Exchange, block: string, ghost pieces: seq<string>)
      requires Valid() && Progress(x, pieces) && started && block == x.block
      modifies this, rfile, conn.Repr()
      ensures Valid() && rfile == old(rfile) && (conn.rbuf == old(conn.rbuf) || fresh(conn.rbuf))
      ensures Progress(x, pieces + if chunk != "" then [chunk] else [])
      ensures sentHeaders && started && LastHead() == old(LastHead())
      ensures var data := if old(sentHeaders) || closeConnection then ""
                          else Drained(old(conn.Pending()), old(rfile.remaining));
              old(conn.Pending()) == data + conn.Pending() && rfile.remaining == old(rfile.remaining) - |data|
    {
      hide CPFileObject.Valid, CPFileObject.Pending, Payload, Drained, Chunks, Closes, Frame;
      EnsureHeaders(x, block, pieces);
      PayloadAppend(chunkedWrite, pieces, chunk, x.sent + x.block);
      WriteChunk(chunk);
    }

    /** start_response; ok is false when it raises. */
    method StartResponse(status: int, contentLength: bool, connection: bool, excInfo: bool) returns (ok: bool)
      requires sentHeaders ==> started
      modifies this`started, this`status, this`hasContentLength, this`hasConnection
      ensures var op := Start(status, contentLength, connection, excInfo);
              && PhaseStep(old(Now()), op) == (if ok then Started else Raised)
              && LastHead() == HeadStep(old(Now()), old(LastHead()), op)
      ensures hasConnection == (old(hasConnection) || (ok && connection))
      ensures started == (old(started) || ok)
    {
      if (started && !excInfo) || sentHeaders {
        return false;
      }
      started, this.status := true, status;
      hasContentLength, hasConnection := hasContentLength || contentLength, hasConnection || connection;
      ok := true;
    }

    /** One step of the application; ok is false when it raises. */
    method Step(op: AppOp, ghost x: Exchange, block: string, ghost pieces: seq<string>) returns (ok: bool)
      requires Valid() && Progress(x, pieces) && block == x.block
      modifies this, rfile, conn.Repr()
      ensures Valid() && rfile == old(rfile) && (conn.rbuf == old(conn.rbuf) || fresh(conn.rbuf))
      ensures if ok then Now() == PhaseStep(old(Now()), op) else PhaseStep(old(Now()), op) == Raised
      ensures LastHead() == HeadStep(old(Now()), old(LastHead()), op)
      ensures var data := Takes(op, old(Now()), old(conn.Pending()), old(rfile.remaining), !closeConnection);
              old(conn.Pending()) == data + conn.Pending() && rfile.remaining == old(rfile.remaining) - |data|
      ensures Progress(x, if ok && op.Write? && op.chunk != "" then pieces + [op.chunk] else pieces)
    {
      hide CPFileObject.Valid, CPFileObject.Pending, Payload, Drained, Chunks, Closes, Takes, Reads;
      ghost var before := conn.Pending();
      assert before == "" + before && pieces + [] == pieces;
      TakesAre(op, Now(), before, rfile.remaining);
      ok := true;
      match op
      case Write(chunk) =>
        if !started {
          return false;
        }
        WriteStep(chunk, x, block, pieces);
      case Start(status, contentLength, connection, excInfo) =>
        ok := StartResponse(status, contentLength, connection, excInfo);
      case _ =>
        ReadStep(op);
    }

    /** The connection is where the body of cl bytes, begun at the front of whole, has
        been read up to the bytes still remaining; a negative number says that as
        many bytes behind the body have been read too. */
    ghost predicate Framed(whole: string, cl: int)
      reads this`rfile, rfile, conn, conn.rbuf, conn.sock
      requires rfile != null
    {
      && 0 <= cl - rfile.remaining <= |whole|
      && conn.Pending() == whole[cl - rfile.remaining..]
    }

    /** Step i of the application of x is next, in this phase: what is to come of x
        from here is what was to come of it in the beginning. */
    ghost predicate At(x: Exchange, i: nat, phase: Phase)
      requires i <= |x.app|
      reads this, rfile, conn, conn.rbuf, conn.sock
    {
      && Valid() && Framed(x.whole, x.cl)
      && EndPhase(x.app, Unstarted) == EndPhase(x.app[i..], phase)
      && x.LastHead() == EndHead(x.app[i..], phase, LastHead())
      && x.Remains() == Left(x.app[i..], conn.Pending(), rfile.remaining, phase, x.Kept())
    }

    /** respond, for a request with a Content-Length of cl. limit is the server's
        maximum body size, 0 for none; block is the header block send_headers
        produces, refusal what simple_response sends. ok is false when an exception
        leaves it: exactly when the application raises, or ends without starting the
        response. Whatever the application does, the stream is left behind what has
        been read, and a kept connection is left behind the body exactly when every
        read of the application stays within it. What is sent is the header block and
        the pieces written, in frames and with a last chunk when the response is
        chunked. */
    method Respond(cl: int, limit: int, app: seq<AppOp>, block: string, refusal: string)
      returns (ok: bool, ghost x: Exchange)
      requires conn.Valid() && rfile == null && Now() == Unstarted && !chunkedWrite
      modifies this, conn.Repr()
      ensures conn.Valid() && (conn.rbuf == old(conn.rbuf) || fresh(conn.rbuf))
      ensures x == Exchange(app, old(conn.Pending()), cl, old(wfile), block,
                            old(LastHead()), http11, isHead, old(closeConnection))
      ensures ok <==> (limit != 0 && limit < cl) || EndPhase(app, Unstarted) in {Started, Sent}
      ensures if limit != 0 && limit < cl
              then rfile == null && closeConnection && wfile == x.sent + refusal && conn.Pending() == x.whole
              else rfile != null && rfile.remaining == x.Remains() && Framed(x.whole, cl)
      ensures rfile != null && cl >= 0 ==>
                (rfile.remaining >= 0 <==> StaysInBody(app, x.whole, cl, Unstarted, x.Kept()))
      ensures ok && !closeConnection && cl >= 0 ==>
                (conn.Pending() == x.whole[Min(cl, |x.whole|)..] <==> StaysInBody(app, x.whole, cl, Unstarted, true))
      ensures ok && rfile != null ==>
                && closeConnection == !x.Kept()
                && chunkedWrite == Chunks(x.LastHead(), http11, isHead)
                && wfile == x.sent + block + Payload(chunkedWrite, Written(app))
                            + if chunkedWrite then LAST_CHUNK else ""
    {
      hide CPFileObject.Valid, CPFileObject.Pending, Written, EndPhase, Payload, StaysInBody, Chunks, Closes,
        Exchange.Kept, Exchange.LastHead, Exchange.Remains, Drained, Ends, At, Progress;
      x := Exchange(app, conn.Pending(), cl, wfile, block, LastHead(), http11, isHead, closeConnection);
      if cl >= 0 {
        Consequences(x);
      }
      if limit != 0 && limit < cl {
        closeConnection := true;
        wfile := wfile + refusal;
        return true, x;
      }
      ok := Serve(x, app, cl, block);
    }

    /** The response to a request that is not refused. */
    method Serve(ghost x: Exchange, app: seq<AppOp>, cl: int, block: string) returns (ok: bool)
      requires conn.Valid() && rfile == null && Now() == Unstarted && !chunkedWrite
      requires x == Exchange(app, conn.Pending(), cl, wfile, block, LastHead(), http11, isHead, closeConnection)
      modifies this, conn.Repr()
      ensures Valid() && (conn.rbuf == old(conn.rbuf) || fresh(conn.rbuf))
      ensures ok <==> EndPhase(app, Unstarted) in {Started, Sent}
      ensures rfile.remaining == x.Remains() && Framed(x.whole, cl)
      ensures ok ==>
                && closeConnection == !x.Kept()
                && chunkedWrite == Chunks(x.LastHead(), http11, isHead)
                && wfile == x.sent + block + Payload(chunkedWrite, Written(app))
                            + if chunkedWrite then LAST_CHUNK else ""
    {
      hide CPFileObject.Valid, CPFileObject.Pending, Written, EndPhase, EndHead, Payload, Chunks, Closes, Drained,
        Exchange.Kept, Exchange.LastHead, Exchange.Remains, Left, At, Progress, Ends, Framed;
      Begin(x, cl);
      ok := RunApplication(x, app, block);
      ok := Conclude(x, ok, block);
    }

    /** What is left to do when the gateway is through; goes is false when it has raised. */
    method Conclude(ghost x: Exchange, goes: bool, block: string) returns (ok: bool)
      requires Ends(x, EndPhase(x.app, Unstarted)) && block == x.block
      requires if goes then Now() == EndPhase(x.app, Unstarted) && Progress(x, Written(x.app))
               else EndPhase(x.app, Unstarted) == Raised
      modifies this, rfile, conn.Repr()
      ensures Valid() && rfile == old(rfile) && (conn.rbuf == old(conn.rbuf) || fresh(conn.rbuf))
      ensures ok <==> EndPhase(x.app, Unstarted) in {Started, Sent}
      ensures rfile.remaining == x.Remains() && Framed(x.whole, x.cl)
      ensures ok ==>
                && closeConnection == !x.Kept()
                && chunkedWrite == Chunks(x.LastHead(), http11, isHead)
                && wfile == x.sent + x.block + Payload(chunkedWrite, Written(x.app))
                            + if chunkedWrite then LAST_CHUNK else ""
    {
      hide CPFileObject.Valid, CPFileObject.Pending, Written, EndPhase, EndHead, Payload, Chunks, Closes, Drained,
        Exchange.Kept, Exchange.LastHead, Exchange.Remains, Left, Progress, Framed;
      ok := goes && started;
      if ok {
        FinishHeaders(x, block);
        WriteLastChunk();
      }
    }

    method WriteLastChunk()
      modifies this`wfile
      ensures wfile == old(wfile) + if chunkedWrite then LAST_CHUNK else ""
    {
      if chunkedWrite {
        wfile := wfile + LAST_CHUNK;
      }
    }

    method Begin(ghost x: Exchange, cl: int)
      requires conn.Valid() && Now() == Unstarted && !chunkedWrite
      requires x == Exchange(x.app, conn.Pending(), cl, wfile, x.block, LastHead(), http11, isHead, closeConnection)
      modifies this`rfile
      ensures At(x, 0, Unstarted) && Progress(x, []) && fresh(rfile)
    {
      hide CPFileObject.Valid, CPFileObject.Pending, EndPhase, EndHead, Payload, Chunks, Closes, Drained,
        Exchange.Kept, Exchange.LastHead, Exchange.Remains, Left;
      rfile := new KnownLengthRFile(conn, cl);
      assert x.whole[0..] == x.whole;
      Opens(x);
    }

    /** The headers of a response that has been started, if they have not been sent. */
    method FinishHeaders(ghost x: Exchange, block: string)
      requires Ends(x, Now()) && Progress(x, Written(x.app)) && started && block == x.block
      modifies this, rfile, conn.Repr()
      ensures Valid() && rfile == old(rfile) && (conn.rbuf == old(conn.rbuf) || fresh(conn.rbuf))
      ensures chunkedWrite == Chunks(x.LastHead(), http11, isHead)
      ensures wfile == x.sent + block + Payload(chunkedWrite, Written(x.app))
      ensures closeConnection == !x.Kept() && rfile.remaining == x.Remains() && Framed(x.whole, x.cl)
    {
      hide CPFileObject.Valid, CPFileObject.Pending, Written, Payload, Chunks, Closes, Drained, EndHead,
        Exchange.LastHead, Exchange.Remains;
      ghost var s, remaining := conn.Pending(), rfile.remaining;
      EnsureHeaders(x, block, Written(x.app));
      ghost var data := s[..remaining - rfile.remaining];
      StaysFramed(x.whole, x.cl, s, remaining, data, conn.Pending());
    }

    /** The application of x is through, or has raised; only the headers may be missing. */
    ghost predicate Ends(x: Exchange, phase: Phase)
      reads this, rfile, conn, conn.rbuf, conn.sock
    {
      && Valid() && Framed(x.whole, x.cl) && LastHead() == x.LastHead()
      && x.Remains() == rfile.remaining
                        - if phase.Started? && x.Kept() then |Drained(conn.Pending(), rfile.remaining)| else 0
    }

    /** What the gateway's respond lets the application do. */
    method RunApplication(ghost x: Exchange, app: seq<AppOp>, block: string) returns (ok: bool)
      requires app == x.app && block == x.block && At(x, 0, Unstarted) && Now() == Unstarted && Progress(x, [])
      modifies this, rfile, conn.Repr()
      ensures rfile == old(rfile) && (conn.rbuf == old(conn.rbuf) || fresh(conn.rbuf))
      ensures Ends(x, EndPhase(app, Unstarted))
      ensures if ok then Now() == EndPhase(app, Unstarted) else EndPhase(app, Unstarted) == Raised
      ensures ok ==> Progress(x, Written(app))
    {
      hide CPFileObject.Valid, CPFileObject.Pending, Written, EndPhase, EndHead, Left, Progress, Framed,
        Exchange.Kept, Exchange.LastHead, Exchange.Remains, Drained;
      ok := true;
      var i := 0;
      NothingWritten(app);
      while i < |app|
        invariant 0 <= i <= |app| && rfile == old(rfile)
        invariant conn.rbuf == old(conn.rbuf) || fresh(conn.rbuf)
        invariant ok && At(x, i, Now()) && Progress(x, Written(app[..i]))
      {
        WrittenStep(app, i);
        ok := StepOn(x, i, app[i], block, Written(app[..i]));
        i := i + 1;
        if !ok {
          RaisedAtLast(app[i..], LastHead(), conn.Pending(), rfile.remaining, x.Kept());
          return;
        }
      }
      assert app[..i] == app && app[i..] == [];
      NothingFollows(Now(), LastHead(), conn.Pending(), rfile.remaining, x.Kept());
    }

    method StepOn(ghost x: Exchange, ghost i: nat, op: AppOp, block: string, ghost pieces: seq<string>)
      returns (ok: bool)
      requires i < |x.app| && op == x.app[i] && block == x.block && At(x, i, Now()) && Progress(x, pieces)
      modifies this, rfile, conn.Repr()
      ensures rfile == old(rfile) && (conn.rbuf == old(conn.rbuf) || fresh(conn.rbuf))
      ensures At(x, i + 1, if ok then Now() else Raised)
      ensures ok ==> Progress(x, pieces + if op.Write? && op.chunk != "" then [op.chunk] else [])
    {
      hide CPFileObject.Valid, CPFileObject.Pending, EndPhase, EndHead, Left, Payload, Chunks, Closes, Takes,
        Exchange.Kept, Exchange.LastHead, Exchange.Remains;
      ghost var phase, head, s, remaining := Now(), LastHead(), conn.Pending(), rfile.remaining;
      assert pieces + [] == pieces;
      ok := Step(op, x, block, pieces);
      StaysFramed(x.whole, x.cl, s, remaining, s[..remaining - rfile.remaining], conn.Pending());
      Goes(x, i, phase, head, closeConnection, s, remaining, conn.Pending(), rfile.remaining);
    }
  }

  lemma NothingWritten(app: seq<AppOp>)
    ensures Written(app[..0]) == []
  {
  }
}
