/** What a WSGI application does with its request, and what follows from it for
    the connection (python/http/cherrPy-wsgi.py). */
module WsgiApp {
  import opened PlainStream
  import opened Sequences
  import opened RequestBody

  /** What the application does, in any order and as often as it likes: read
      the body, set status and headers, write a piece of the response. */
  datatype AppOp =
    | DoRead(size: Size)
    | DoReadline(size: Size)
    | DoReadlines(sizehint: int)
    | Start(status: int, contentLength: bool, connection: bool, excInfo: bool)
    | Write(chunk: string)

  /** The non-empty pieces the application writes. */
  function Written(app: seq<AppOp>): seq<string> {
    if app == [] then []
    else
      var op := app[|app| - 1];
      Written(app[..|app| - 1]) + if op.Write? && op.chunk != "" then [op.chunk] else []
  }

  lemma WrittenStep(app: seq<AppOp>, i: nat)
    requires i < |app|
    ensures Written(app[..i + 1])
            == Written(app[..i]) + if app[i].Write? && app[i].chunk != "" then [app[i].chunk] else []
  {
    assert app[..i + 1][..i] == app[..i];
  }

  lemma {:induction false} NothingEmptyWritten(app: seq<AppOp>)
    ensures "" !in Written(app)
    decreases |app|
  {
    if app != [] {
      NothingEmptyWritten(app[..|app| - 1]);
    }
  }

  /** How far the application has come: it has to start the response before it
      writes, may start it again with exc_info until the headers are sent, and raises
      otherwise. */
  datatype Phase = Unstarted | Started | Sent | Raised

  function PhaseStep(phase: Phase, op: AppOp): Phase {
    match op
    case Start(_, _, _, excInfo) =>
      if phase.Unstarted? || (phase.Started? && excInfo) then Started else Raised
    case Write(_) => if phase.Started? || phase.Sent? then Sent else Raised
    case _ => phase
  }

  function EndPhase(app: seq<AppOp>, phase: Phase): Phase {
    if app == [] then phase else EndPhase(app[1..], PhaseStep(phase, app[0]))
  }

  /** What the application has said of its response that decides how it is framed. */
  datatype Head = Head(status: int, contentLength: bool)

  function HeadStep(phase: Phase, head: Head, op: AppOp): Head {
    if op.Start? && PhaseStep(phase, op) == Started
    then Head(op.status, head.contentLength || op.contentLength)
    else head
  }

  function EndHead(app: seq<AppOp>, phase: Phase, head: Head): Head {
    if app == [] then head else EndHead(app[1..], PhaseStep(phase, app[0]), HeadStep(phase, head, app[0]))
  }

  /** Once the headers are sent, or the application has raised, nothing changes them. */
  lemma {:induction false} HeadIsFixed(app: seq<AppOp>, phase: Phase, head: Head)
    requires phase.Sent? || phase.Raised?
    ensures EndHead(app, phase, head) == head
    ensures phase.Raised? ==> EndPhase(app, phase) == Raised
    decreases |app|
  {
    if app != [] {
      HeadIsFixed(app[1..], PhaseStep(phase, app[0]), head);
    }
  }

  /** Responses that may have a body: not 1xx, 204, 205 or 304. */
  predicate MayHaveBody(status: int) {
    status >= 200 && status != 204 && status != 205 && status != 304
  }

  predicate Chunks(head: Head, http11: bool, isHead: bool) {
    head.status != 413 && !head.contentLength && MayHaveBody(head.status) && http11 && !isHead
  }

  predicate Closes(head: Head, http11: bool, isHead: bool) {
    head.status == 413 || (!head.contentLength && MayHaveBody(head.status) && (!http11 || isHead))
  }

  /** The choice spelled out. A response that may have a body and announces no length is
      chunked for a client that speaks HTTP/1.1 and has not asked for the head alone, and
      otherwise ended by closing; any other is neither, but for 413, which always closes. */
  lemma FramingChoice(head: Head, http11: bool, isHead: bool)
    ensures head.status >= 200 && head.status !in {204, 205, 304} && !head.contentLength ==>
              && (Chunks(head, http11, isHead) <==> http11 && !isHead && head.status != 413)
              && (Closes(head, http11, isHead) <==> !Chunks(head, http11, isHead))
    ensures head.status < 200 || head.status in {204, 205, 304} || head.contentLength ==>
              !Chunks(head, http11, isHead) && (Closes(head, http11, isHead) <==> head.status == 413)
  {
  }

  lemma {:induction false} EndPhaseStep(app: seq<AppOp>, phase: Phase, head: Head)
    requires app != []
    ensures var init, last := app[..|app| - 1], app[|app| - 1];
            && EndPhase(app, phase) == PhaseStep(EndPhase(init, phase), last)
            && EndHead(app, phase, head) == HeadStep(EndPhase(init, phase), EndHead(init, phase, head), last)
    decreases |app|
  {
    if |app| > 1 {
      EndPhaseStep(app[1..], PhaseStep(phase, app[0]), HeadStep(phase, head, app[0]));
      assert app[..|app| - 1][1..] == app[1..][..|app| - 2];
    }
  }

  /** The application starts the response before it writes, again only with exc_info, and
      never once it has written. */
  ghost predicate IsProper(app: seq<AppOp>) {
    && Starts(app)
    && (forall i, j :: 0 <= i < j < |app| && app[i].Start? && app[j].Start? ==> app[j].excInfo)
    && (forall j :: 0 <= j < |app| && app[j].Write? ==> Starts(app[..j]))
    && (forall i, j :: 0 <= i < j < |app| && app[i].Write? ==> !app[j].Start?)
  }

  ghost predicate Starts(app: seq<AppOp>) {
    exists i :: 0 <= i < |app| && app[i].Start?
  }

  ghost predicate Writes(app: seq<AppOp>) {
    exists i :: 0 <= i < |app| && app[i].Write?
  }

  lemma ProperStep(app: seq<AppOp>)
    requires app != []
    ensures var init, last := app[..|app| - 1], app[|app| - 1];
            && (Starts(app) <==> Starts(init) || last.Start?)
            && (Writes(app) <==> Writes(init) || last.Write?)
            && (last.Start? && !Starts(init) && !Writes(init) ==> IsProper(app))
            && (last.Start? && !Starts(init) && Writes(init) ==> !IsProper(app))
            && (last.Start? && Starts(init) ==>
                  (IsProper(app) <==> IsProper(init) && last.excInfo && !Writes(init)))
            && (last.Write? ==> (IsProper(app) <==> IsProper(init)))
            && (!last.Start? && !last.Write? ==> (IsProper(app) <==> IsProper(init)))
  {
    var init, last := app[..|app| - 1], app[|app| - 1];
    assert forall j :: 0 <= j < |init| ==> init[..j] == app[..j];
    assert Starts(init) ==> Starts(app);
  }

  /** The response goes out exactly then, and otherwise the application raises, unless it
      neither starts nor writes anything. */
  lemma {:induction false} GoesOutExactly(app: seq<AppOp>)
    ensures EndPhase(app, Unstarted) in {Started, Sent} <==> IsProper(app)
    ensures IsProper(app) ==> (EndPhase(app, Unstarted) == Sent <==> Writes(app))
    ensures EndPhase(app, Unstarted) == Unstarted <==> !Starts(app) && !Writes(app)
    decreases |app|
  {
    if app != [] {
      var init := app[..|app| - 1];
      GoesOutExactly(init);
      EndPhaseStep(app, Unstarted, Head(0, false));
      ProperStep(app);
      ProperStarts(init);
      hide EndPhase, IsProper, Starts, Writes;
    }
  }

  lemma ProperStarts(app: seq<AppOp>)
    ensures IsProper(app) ==> Starts(app)
    ensures Writes(app) && !Starts(app) ==> !IsProper(app)
  {
  }

  /** Its status is the one started with last, and a length is announced if any start did. */
  lemma {:induction false} LastStartCounts(app: seq<AppOp>, head: Head, k: nat)
    requires EndPhase(app, Unstarted) in {Started, Sent}
    requires k < |app| && app[k].Start? && forall j :: k < j < |app| ==> !app[j].Start?
    ensures EndHead(app, Unstarted, head).status == app[k].status
    decreases |app|
  {
    var init, last := app[..|app| - 1], app[|app| - 1];
    EndPhaseStep(app, Unstarted, head);
    hide EndPhase, EndHead;
    if k < |app| - 1 {
      LastStartCounts(init, head, k);
    }
  }

  lemma {:induction false} LengthIsAnnounced(app: seq<AppOp>, head: Head)
    requires EndPhase(app, Unstarted) != Raised
    ensures EndHead(app, Unstarted, head).contentLength
            <==> head.contentLength || exists i :: 0 <= i < |app| && app[i].Start? && app[i].contentLength
    decreases |app|
  {
    if app != [] {
      var init, last := app[..|app| - 1], app[|app| - 1];
      EndPhaseStep(app, Unstarted, head);
      hide EndPhase, EndHead;
      LengthIsAnnounced(init, head);
      if i :| 0 <= i < |init| && init[i].Start? && init[i].contentLength {
        assert app[i].Start? && app[i].contentLength;
      }
    }
  }

  /** What send_headers reads of the body when the connection is kept. */
  function Drained(s: string, remaining: int): (data: string)
    ensures |data| <= |s| && data == s[..|data|]
  {
    if remaining > 0 then BodyRead(s, remaining, Sized(remaining)) else ""
  }

  /** What one reading step takes from a stream s of which remaining bytes belong to
      the body. The count is negative once the body has been passed. */
  function Reads(op: AppOp, s: string, remaining: int): (data: string)
    ensures |data| <= |s| && data == s[..|data|]
  {
    match op
    case DoRead(size) => BodyRead(s, remaining, size)
    case DoReadline(size) => if remaining == 0 then "" else ReadlineOf(s, Asked(remaining, size))
    case DoReadlines(sizehint) =>
      LinesArePrefix(s, remaining, sizehint, 0);
      Join(BodyLines(s, remaining, sizehint, 0))
    case _ => ""
  }

  /** The condition of the reader under which the step stays within the body. */
  predicate ReadsWithin(op: AppOp, s: string, remaining: nat) {
    match op
    case DoRead(size) => ReadStays(s, remaining, size)
    case DoReadline(size) => LineStays(s, remaining, size)
    case DoReadlines(sizehint) => LinesStay(s, remaining, sizehint)
    case _ => true
  }

  lemma ReadsWithinExactly(op: AppOp, s: string, remaining: nat)
    ensures |Reads(op, s, remaining)| <= remaining <==> ReadsWithin(op, s, remaining)
  {
    match op
    case DoRead(size) =>
      RemainingAfterRead(s, remaining, size);
    case DoReadline(size) =>
      hide LineOf;
      if remaining != 0 {
        ReadlineSatisfies(s, Asked(remaining, size));
      }
      RemainingAfterReadline(s, remaining, size, Reads(op, s, remaining));
    case DoReadlines(sizehint) =>
      hide BodyLines, Join, LinesStay;
      RemainingAfterReadlines(s, remaining, sizehint);
    case _ =>
  }

  /** What a step takes from the stream in all: the first write to a kept connection
      sends the headers, which drains the body. */
  function Takes(op: AppOp, phase: Phase, s: string, remaining: int, kept: bool): (data: string)
    ensures |data| <= |s| && data == s[..|data|]
  {
    if op.Write? && phase.Started? && kept then Drained(s, remaining) else Reads(op, s, remaining)
  }

  /** What remains of the body when the response is through, or an exception has
      stopped it. If the application only starts the response, the server sends the
      headers in the end. */
  function Left(app: seq<AppOp>, s: string, remaining: int, phase: Phase, kept: bool): (left: int)
    ensures remaining - |s| <= left <= remaining
    decreases |app|
  {
    if phase.Raised? then remaining
    else if app == [] then remaining - if phase.Started? && kept then |Drained(s, remaining)| else 0
    else
      var data := Takes(app[0], phase, s, remaining, kept);
      Left(app[1..], s[|data|..], remaining - |data|, PhaseStep(phase, app[0]), kept)
  }

  /** Every read of the application, up to its end or to where it raises, meets the
      condition of its reader at its turn. */
  predicate StaysInBody(app: seq<AppOp>, s: string, remaining: nat, phase: Phase, kept: bool)
    decreases |app|
  {
    phase.Raised? || app == []
    || (ReadsWithin(app[0], s, remaining)
        && (TakesWithin(app[0], phase, s, remaining, kept);
            var data := Takes(app[0], phase, s, remaining, kept);
            StaysInBody(app[1..], s[|data|..], remaining - |data|, PhaseStep(phase, app[0]), kept)))
  }

  lemma TakesWithin(op: AppOp, phase: Phase, s: string, remaining: nat, kept: bool)
    ensures |Takes(op, phase, s, remaining, kept)| <= remaining <==> ReadsWithin(op, s, remaining)
  {
    hide Reads, BodyRead;
    ReadsWithinExactly(op, s, remaining);
    DrainedWithin(s, remaining);
  }

  lemma DrainedWithin(s: string, remaining: nat)
    ensures |Drained(s, remaining)| == Min(remaining, |s|)
  {
  }

  /** Exactly then the count of remaining bytes does not become negative. */
  lemma {:induction false} StaysInBodyExactly(app: seq<AppOp>, s: string, remaining: nat, phase: Phase, kept: bool)
    ensures Left(app, s, remaining, phase, kept) >= 0 <==> StaysInBody(app, s, remaining, phase, kept)
    decreases |app|
  {
    hide Takes, ReadsWithin, Drained;
    DrainedWithin(s, remaining);
    if !phase.Raised? && app != [] {
      TakesWithin(app[0], phase, s, remaining, kept);
      var data := Takes(app[0], phase, s, remaining, kept);
      if |data| <= remaining {
        StaysInBodyExactly(app[1..], s[|data|..], remaining - |data|, PhaseStep(phase, app[0]), kept);
      }
    }
  }

  /** A response that goes out on a kept connection leaves nothing of the body unread. */
  lemma {:induction false} KeptIsDrained(app: seq<AppOp>, s: string, remaining: int, phase: Phase)
    requires EndPhase(app, phase) == Started || EndPhase(app, phase) == Sent
    requires phase.Sent? ==> remaining <= 0 || s == ""
    ensures Left(app, s, remaining, phase, true) <= Max(0, remaining - |s|)
    decreases |app|
  {
    hide Reads, BodyRead;
    if remaining > 0 {
      DrainedWithin(s, remaining);
    }
    hide Drained;
    if phase.Raised? {
      HeadIsFixed(app, phase, Head(0, false));
    } else if app != [] {
      var data := Takes(app[0], phase, s, remaining, true);
      KeptIsDrained(app[1..], s[|data|..], remaining - |data|, PhaseStep(phase, app[0]));
    }
  }

  /** So a stream with whole in front, of which cl bytes are the body, is left behind
      the body exactly when every read stays within it. */
  lemma KeptIsFramedExactly(app: seq<AppOp>, whole: string, cl: nat)
    requires EndPhase(app, Unstarted) == Started || EndPhase(app, Unstarted) == Sent
    ensures var left := Left(app, whole, cl, Unstarted, true);
            whole[cl - left..] == whole[Min(cl, |whole|)..] <==> StaysInBody(app, whole, cl, Unstarted, true)
  {
    hide Left, StaysInBody;
    StaysInBodyExactly(app, whole, cl, Unstarted, true);
    KeptIsDrained(app, whole, cl, Unstarted);
  }

  predicate ProperSize(op: AppOp) {
    match op
    case DoRead(size) => size.Unsized? || size.n >= 0
    case DoReadline(size) => size.Unsized? || size.n >= 0
    case DoReadlines(sizehint) => sizehint >= 0
    case _ => true
  }

  /** Sizes that are not negative are always enough. */
  lemma {:induction false} ProperSizesStay(app: seq<AppOp>, s: string, remaining: nat, phase: Phase, kept: bool)
    requires forall i :: 0 <= i < |app| ==> ProperSize(app[i])
    ensures StaysInBody(app, s, remaining, phase, kept)
    decreases |app|
  {
    hide Takes, ReadlineOf, LineOf, BodyLines;
    if !phase.Raised? && app != [] {
      TakesWithin(app[0], phase, s, remaining, kept);
      var data := Takes(app[0], phase, s, remaining, kept);
      assert forall i :: 0 <= i < |app[1..]| ==> app[1..][i] == app[i + 1];
      ProperSizesStay(app[1..], s[|data|..], remaining - |data|, PhaseStep(phase, app[0]), kept);
    }
  }

  /** With two requests on the wire, read(-1) takes the second with the first. The
      response goes out, and what is left of a body of one byte is -1 bytes. */
  lemma SomeRequestIsEaten()
    ensures var app := [DoRead(Sized(-1)), Start(200, false, false, false)];
            && EndPhase(app, Unstarted) == Started
            && Left(app, "ab", 1, Unstarted, true) == -1
            && !StaysInBody(app, "ab", 1, Unstarted, true)
  {
    var op, last := DoRead(Sized(-1)), Start(200, false, false, false);
    var app := [op, last];
    assert app[1..] == [last] && [last][1..] == [];
    assert Takes(op, Unstarted, "ab", 1, true) == "ab";
    assert Takes(last, Unstarted, "", -1, true) == "";
    assert Left([], "", -1, Started, true) == -1;
    assert Left([last], "", -1, Unstarted, true) == -1;
    StaysInBodyExactly(app, "ab", 1, Unstarted, true);
  }

  /** One step from place i on. */
  lemma Onward(app: seq<AppOp>, i: nat, s: string, remaining: int, phase: Phase, head: Head, kept: bool)
    requires i < |app|
    ensures var next, data := PhaseStep(phase, app[i]), Takes(app[i], phase, s, remaining, kept);
            && EndPhase(app[i..], phase) == EndPhase(app[i + 1..], next)
            && EndHead(app[i..], phase, head) == EndHead(app[i + 1..], next, HeadStep(phase, head, app[i]))
            && (!phase.Raised? ==>
                  Left(app[i..], s, remaining, phase, kept)
                  == Left(app[i + 1..], s[|data|..], remaining - |data|, next, kept))
  {
    hide Takes;
    assert app[i..][1..] == app[i + 1..];
  }
}
