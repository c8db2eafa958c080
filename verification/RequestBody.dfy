/** The wrappers around the connection's file object that bound what a request
    may read (python/http/cherrPy-wsgi.py). */
module RequestBody {
  import opened PlainStream
  import opened Sequences
  import opened FileObject

  /** An optional size argument; None is the default of every reader. */
  datatype Size = Unsized | Sized(n: int)

  datatype Outcome = Ok(data: string) | MaxSizeExceeded

  class SizeCheckWrapper {
    const rfile: CPFileObject
    /** 0 stands for no limit. */
    const maxlen: int
    var bytesRead: nat

    ghost predicate Valid()
      reads rfile, rfile.rbuf, rfile.sock
    {
      rfile.Valid()
    }

    constructor (rfile: CPFileObject, maxlen: int)
      ensures this.rfile == rfile && this.maxlen == maxlen && bytesRead == 0
    {
      this.rfile := rfile;
      this.maxlen := maxlen;
      bytesRead := 0;
    }

    predicate Exceeded()
      reads this
    {
      maxlen != 0 && bytesRead > maxlen
    }

    method Read(size: Size) returns (r: Outcome)
      requires Valid()
      modifies this`bytesRead, rfile.Repr()
      ensures Valid() && (rfile.rbuf == old(rfile.rbuf) || fresh(rfile.rbuf))
      ensures var data := ReadOf(old(rfile.Pending()), if size.Unsized? then -1 else size.n);
              && old(rfile.Pending()) == data + rfile.Pending()
              && bytesRead == old(bytesRead) + |data|
              && r == if maxlen != 0 && bytesRead > maxlen then MaxSizeExceeded else Ok(data)
    {
      var data := rfile.Read(if size.Unsized? then -1 else size.n);
      bytesRead := bytesRead + |data|;
      return if Exceeded() then MaxSizeExceeded else Ok(data);
    }

    method ReadlineSized(size: int) returns (r: Outcome, ghost data: string)
      requires Valid()
      modifies this`bytesRead, rfile.Repr()
      ensures Valid() && (rfile.rbuf == old(rfile.rbuf) || fresh(rfile.rbuf))
      ensures IsReadline(old(rfile.Pending()), size, data)
      ensures old(rfile.Pending()) == data + rfile.Pending()
      ensures bytesRead == old(bytesRead) + |data|
      ensures r == if maxlen != 0 && bytesRead > maxlen then MaxSizeExceeded else Ok(data)
    {
      var line := rfile.Readline(size);
      data := line;
      bytesRead := bytesRead + |line|;
      r := if Exceeded() then MaxSizeExceeded else Ok(line);
    }

    /** readline without a size. The line is fetched in pieces of 256, yet the
        result is the plain line, and it is refused exactly when the whole line
        would pass the limit; then at most 256 bytes have been read too many. */
    method ReadlineUnsized() returns (r: Outcome, ghost line: string)
      requires Valid()
      modifies this`bytesRead, rfile.Repr()
      ensures Valid() && (rfile.rbuf == old(rfile.rbuf) || fresh(rfile.rbuf))
      ensures IsReadline(old(rfile.Pending()), -1, line)
      ensures r.Ok? <==> maxlen == 0 || old(bytesRead) + |line| <= maxlen
      ensures r.Ok? ==> r.data == line && bytesRead == old(bytesRead) + |line|
      ensures old(bytesRead) <= bytesRead <= old(bytesRead) + |line|
      ensures r.MaxSizeExceeded? ==> bytesRead <= Max(maxlen, old(bytesRead)) + 256
      ensures r.Ok? ==> old(rfile.Pending()) == line + rfile.Pending()
      ensures |old(rfile.Pending())| == |rfile.Pending()| + (bytesRead - old(bytesRead))
    {
      hide CPFileObject.Valid, CPFileObject.Pending;
      ghost var p := rfile.Pending();
      line := TheLine(p);
      var res := "";
      while true
        invariant Valid() && (rfile.rbuf == old(rfile.rbuf) || fresh(rfile.rbuf))
        invariant p == res + rfile.Pending() && res <= line && '\n' !in res
        invariant bytesRead == old(bytesRead) + |res|
        invariant res != "" ==> !Exceeded()
        decreases |rfile.Pending()|
      {
        ghost var rest := rfile.Pending();
        var data := rfile.Readline(256);
        PieceStep(p, line, res, rest, data, rfile.Pending());
        bytesRead := bytesRead + |data|;
        if Exceeded() {
          return MaxSizeExceeded, line;
        }
        res := res + data;
        if |data| < 256 || data[|data| - 1] == '\n' {
          return Ok(res), line;
        }
      }
    }
  }

  lemma TheLine(s: string) returns (line: string)
    ensures IsReadline(s, -1, line)
  {
    LineSatisfies(s);
    line := LineOf(s);
  }

  /** A piece of 256 that does not end the line is a part of it; any other piece completes it. */
  lemma PieceStep(whole: string, line: string, res: string, rest: string, data: string, rest': string)
    requires whole == res + rest && IsReadline(whole, -1, line) && res <= line && '\n' !in res
    requires IsReadline(rest, 256, data) && rest == data + rest'
    ensures whole == (res + data) + rest' && res + data <= line
    ensures if |data| < 256 || data[|data| - 1] == '\n' then line == res + data else '\n' !in res + data
  {
    Advance(whole, res, rest, data, rest');
    assert data != "" ==> data == data[..|data| - 1] + [data[|data| - 1]];
    if |data| < 256 || data[|data| - 1] == '\n' {
      assert data != "" ==> (res + data)[..|res + data| - 1] == res + data[..|data| - 1];
      ReadlineUnique(whole, -1, line, res + data);
    } else {
      LineContains(whole, line, res + data);
    }
  }

  lemma LineContains(whole: string, line: string, part: string)
    requires IsReadline(whole, -1, line) && part <= whole && '\n' !in part
    ensures part <= line
  {
    assert forall i :: 0 <= i < |line| && i < |part| ==> line[i] == whole[i] == part[i];
    assert |part| <= |line| ==> part == line[..|part|];
  }

  /** What KnownLengthRFile asks its file object for. */
  function Asked(remaining: int, size: Size): int {
    if size.Unsized? then remaining else Min(size.n, remaining)
  }

  /** data is what a readline gives on a stream s of which remaining bytes belong to the body. */
  ghost predicate IsBodyLine(s: string, remaining: int, size: Size, data: string) {
    if remaining == 0 then data == "" else IsReadline(s, Asked(remaining, size), data)
  }

  /** When a reader stays within the remaining bytes of the body. A size that is not
      negative always does; a negative one defeats the minimum and reads up to the
      end of the stream, or of the line. */
  predicate ReadStays(s: string, remaining: nat, size: Size) {
    remaining == 0 || size.Unsized? || size.n >= 0 || |s| <= remaining
  }

  predicate LineStays(s: string, remaining: nat, size: Size) {
    remaining == 0 || size.Unsized? || size.n >= 0 || |LineOf(s)| <= remaining
  }

  predicate LinesStay(s: string, remaining: nat, hint: int) {
    remaining == 0 || hint >= 0 || |s| <= remaining || s[remaining - 1] == '\n'
  }

  class KnownLengthRFile {
    const rfile: CPFileObject
    var remaining: int

    ghost predicate Valid()
      reads rfile, rfile.rbuf, rfile.sock
    {
      rfile.Valid()
    }

    constructor (rfile: CPFileObject, contentLength: int)
      ensures this.rfile == rfile && remaining == contentLength
    {
      this.rfile := rfile;
      remaining := contentLength;
    }

    method Read(size: Size) returns (data: string)
      requires Valid()
      modifies this`remaining, rfile.Repr()
      ensures Valid() && (rfile.rbuf == old(rfile.rbuf) || fresh(rfile.rbuf))
      ensures data == BodyRead(old(rfile.Pending()), old(remaining), size)
      ensures remaining == old(remaining) - |data|
      ensures old(remaining) >= 0 ==>
                (remaining >= 0 <==> ReadStays(old(rfile.Pending()), old(remaining), size))
      ensures old(rfile.Pending()) == data + rfile.Pending()
    {
      if remaining == 0 {
        return "";
      }
      data := rfile.Read(if size.Unsized? then remaining else Min(size.n, remaining));
      remaining := remaining - |data|;
    }

    method Readline(size: Size) returns (data: string)
      requires Valid()
      modifies this`remaining, rfile.Repr()
      ensures Valid() && (rfile.rbuf == old(rfile.rbuf) || fresh(rfile.rbuf))
      ensures IsBodyLine(old(rfile.Pending()), old(remaining), size, data)
      ensures remaining == old(remaining) - |data|
      ensures old(remaining) >= 0 ==>
                (remaining >= 0 <==> LineStays(old(rfile.Pending()), old(remaining), size))
      ensures old(rfile.Pending()) == data + rfile.Pending()
    {
      if remaining == 0 {
        return "";
      }
      ghost var p, r := rfile.Pending(), remaining;
      data := rfile.Readline(if size.Unsized? then remaining else Min(size.n, remaining));
      remaining := remaining - |data|;
      if r >= 0 {
        RemainingAfterReadline(p, r, size, data);
      }
    }

    /** readlines hands its size hint to readline as a limit on every line. NoLines
        says when there are none, and WholeLinesExactly when none is cut. */
    method Readlines(sizehint: int) returns (lines: seq<string>)
      requires Valid()
      modifies this`remaining, rfile.Repr()
      ensures Valid() && (rfile.rbuf == old(rfile.rbuf) || fresh(rfile.rbuf))
      ensures lines == BodyLines(old(rfile.Pending()), old(remaining), sizehint, 0)
      ensures old(rfile.Pending()) == Join(lines) + rfile.Pending()
      ensures remaining == old(remaining) - |Join(lines)|
      ensures old(remaining) >= 0 ==>
                (remaining >= 0 <==> LinesStay(old(rfile.Pending()), old(remaining), sizehint))
    {
      hide BodyLines, Join, BodyLine, CPFileObject.Valid, CPFileObject.Pending, LinesStay;
      ghost var p, r := rfile.Pending(), remaining;
      if r >= 0 {
        RemainingAfterReadlines(p, r, sizehint);
      }
      var total := 0;
      lines := [];
      JoinNone();
      var line := NextLine(sizehint);
      ghost var s, rem := p, r;
      while line != ""
        invariant Valid() && (rfile.rbuf == old(rfile.rbuf) || fresh(rfile.rbuf))
        invariant p == Join(lines) + s && s == line + rfile.Pending() && total == |Join(lines)|
        invariant rem == r - total && remaining == rem - |line| && line == BodyLine(s, rem, sizehint)
        invariant BodyLines(p, r, sizehint, 0) == lines + BodyLines(s, rem, sizehint, total)
        decreases |s|
      {
        JoinAppend(lines, line);
        Associates(Join(lines), line, rfile.Pending());
        LinesStep(s, rem, sizehint, total, line, rfile.Pending(), lines);
        lines := lines + [line];
        total := total + |line|;
        if 0 < sizehint <= total {
          return;
        }
        s, rem := rfile.Pending(), remaining;
        line := NextLine(sizehint);
      }
      LinesEnd(s, rem, sizehint, total, lines);
    }

    /** One readline of the loop above. */
    method NextLine(sizehint: int) returns (line: string)
      requires Valid()
      modifies this`remaining, rfile.Repr()
      ensures Valid() && (rfile.rbuf == old(rfile.rbuf) || fresh(rfile.rbuf))
      ensures line == BodyLine(old(rfile.Pending()), old(remaining), sizehint)
      ensures old(rfile.Pending()) == line + rfile.Pending()
      ensures remaining == old(remaining) - |line|
    {
      ghost var p, r := rfile.Pending(), remaining;
      line := Readline(Sized(sizehint));
      BodyLineIs(p, r, sizehint, line);
    }
  }

  lemma JoinNone()
    ensures Join([]) == "" && forall s: string :: "" + s == s
  {
  }

  function BodyLine(s: string, remaining: int, hint: int): (line: string)
    ensures |line| <= |s| && line == s[..|line|]
  {
    if remaining == 0 then "" else ReadlineOf(s, Min(hint, remaining))
  }

  lemma BodyLineIs(s: string, remaining: int, hint: int, line: string)
    requires IsBodyLine(s, remaining, Sized(hint), line)
    ensures line == BodyLine(s, remaining, hint)
  {
    if remaining != 0 {
      ReadlineIs(s, Asked(remaining, Sized(hint)), line);
    }
  }

  /** readlines on a plain stream of which remaining bytes belong to the body, when
      total bytes have been read before. */
  function BodyLines(s: string, remaining: int, hint: int, total: nat): seq<string>
    decreases |s|
  {
    var line := BodyLine(s, remaining, hint);
    if line == "" then []
    else if 0 < hint <= total + |line| then [line]
    else [line] + BodyLines(s[|line|..], remaining - |line|, hint, total + |line|)
  }

  lemma LinesStep(s: string, remaining: int, hint: int, total: nat, line: string, rest: string, before: seq<string>)
    requires s == line + rest && line == BodyLine(s, remaining, hint) && line != ""
    ensures 0 < hint <= total + |line| ==> before + BodyLines(s, remaining, hint, total) == before + [line]
    ensures !(0 < hint <= total + |line|) ==>
              before + BodyLines(s, remaining, hint, total)
              == before + [line] + BodyLines(rest, remaining - |line|, hint, total + |line|)
  {
    hide BodyLine;
    DropPrefix(line, rest);
    if !(0 < hint <= total + |line|) {
      var more := BodyLines(rest, remaining - |line|, hint, total + |line|);
      assert BodyLines(s, remaining, hint, total) == [line] + more;
      Associates(before, [line], more);
    }
  }

  lemma LinesEnd(s: string, remaining: int, hint: int, total: nat, before: seq<string>)
    requires BodyLine(s, remaining, hint) == ""
    ensures before + BodyLines(s, remaining, hint, total) == before
  {
  }

  /** readlines returns nothing exactly when nothing is pending, nothing remains, or
      the hint is 0, which is its default. */
  lemma NoLines(s: string, remaining: int, hint: int)
    ensures BodyLines(s, remaining, hint, 0) == [] <==> s == "" || remaining == 0 || hint == 0 <= remaining
  {
    ReadlineSatisfies(s, Min(hint, remaining));
  }

  /** So the default hint loses a body that is there, and a small one cuts its line. */
  lemma SomeLinesAreMissed()
    ensures BodyLines("ab\n", 3, 0, 0) == []
    ensures BodyLines("ab\n", 3, 1, 0) == ["a"]
  {
    assert LineOf("ab\n") == "ab\n" by {
      assert "ab\n"[1..] == "b\n" && "b\n"[1..] == "\n";
    }
  }

  /** What readlines takes, line by line. */
  lemma JoinedLines(s: string, remaining: int, hint: int, total: nat)
    ensures var line := BodyLine(s, remaining, hint);
            Join(BodyLines(s, remaining, hint, total))
            == if line == "" then ""
               else if 0 < hint <= total + |line| then line
               else line + Join(BodyLines(s[|line|..], remaining - |line|, hint, total + |line|))
  {
    hide BodyLine;
    var line := BodyLine(s, remaining, hint);
    if line != "" {
      var more := if 0 < hint <= total + |line| then []
                  else BodyLines(s[|line|..], remaining - |line|, hint, total + |line|);
      assert BodyLines(s, remaining, hint, total) == [line] + more;
      assert ([line] + more)[1..] == more;
      assert line + "" == line;
    }
  }

  /** It is the front of the stream. */
  lemma {:induction false} LinesArePrefix(s: string, remaining: int, hint: int, total: nat)
    ensures Join(BodyLines(s, remaining, hint, total)) <= s
    decreases |s|
  {
    hide BodyLine, BodyLines, Join;
    var line := BodyLine(s, remaining, hint);
    JoinedLines(s, remaining, hint, total);
    if line != "" && !(0 < hint <= total + |line|) {
      LinesArePrefix(s[|line|..], remaining - |line|, hint, total + |line|);
      assert s == line + s[|line|..];
    }
  }

  /** With a hint that is not negative, readlines stays within the body. */
  lemma {:induction false} HintedLinesStay(s: string, remaining: nat, hint: nat, total: nat)
    ensures |Join(BodyLines(s, remaining, hint, total))| <= remaining
    decreases |s|
  {
    hide BodyLine, BodyLines, Join;
    var line := BodyLine(s, remaining, hint);
    HintedLineStays(s, remaining, hint);
    JoinedLines(s, remaining, hint, total);
    if line != "" && !(0 < hint <= total + |line|) {
      HintedLinesStay(s[|line|..], remaining - |line|, hint, total + |line|);
    }
  }

  lemma HintedLineStays(s: string, remaining: nat, hint: nat)
    ensures |BodyLine(s, remaining, hint)| <= remaining
  {
  }

  lemma NegativeLineIsWhole(s: string, remaining: nat, hint: int)
    requires hint < 0 < remaining && s != ""
    ensures BodyLine(s, remaining, hint) == LineOf(s) != ""
  {
  }

  /** A negative size does not stop a line at the end of the body: only a newline
      there does, or the end of the stream. */
  lemma {:induction false} NegativeLinesStay(s: string, remaining: nat, hint: int, total: nat)
    requires hint < 0
    ensures |Join(BodyLines(s, remaining, hint, total))| <= remaining
            <==> remaining == 0 || |s| <= remaining || s[remaining - 1] == '\n'
    decreases |s|
  {
    hide BodyLines, Join, LineOf;
    LinesArePrefix(s, remaining, hint, total);
    JoinedLines(s, remaining, hint, total);
    if 0 < remaining < |s| {
      NegativeLineIsWhole(s, remaining, hint);
      hide BodyLine;
      LineEndAt(s, remaining);
      var line := LineOf(s);
      if |line| <= remaining {
        NegativeLinesStay(s[|line|..], remaining - |line|, hint, total + |line|);
      }
    }
  }

  /** Where the first line ends, seen from a place n in the stream. */
  lemma LineEndAt(s: string, n: nat)
    requires 0 < n <= |s|
    ensures var l := LineOf(s);
            && (|l| == n < |s| ==> s[n - 1] == '\n')
            && (|l| > n ==> s[n - 1] != '\n')
            && (|l| < n ==> s[|l|..][n - |l| - 1] == s[n - 1])
  {
    LineSatisfies(s);
    var l := LineOf(s);
    if |l| > n {
      assert l[n - 1] in l[..|l| - 1];
    }
  }

  /** Exactly when readlines leaves the count of remaining bytes non-negative. */
  lemma RemainingAfterReadlines(s: string, remaining: nat, hint: int)
    ensures remaining - |Join(BodyLines(s, remaining, hint, 0))| >= 0 <==> LinesStay(s, remaining, hint)
  {
    if hint >= 0 {
      HintedLinesStay(s, remaining, hint, 0);
    } else {
      NegativeLinesStay(s, remaining, hint, 0);
    }
  }

  /** What there is of the body on the stream. */
  function Body(s: string, remaining: nat): string {
    s[..Min(remaining, |s|)]
  }

  /** lines are the first lines of b, one after the other. */
  predicate AreFirstLines(b: string, lines: seq<string>) {
    lines == [] || (lines[0] != "" && lines[0] == LineOf(b) && AreFirstLines(b[|lines[0]|..], lines[1..]))
  }

  /** Every line of b that begins in its first room bytes is at most hint long. */
  predicate LinesFit(b: string, hint: nat, room: int)
    decreases |b|
  {
    b == "" || room <= 0
    || (|LineOf(b)| <= hint && LineOf(b) != "" && LinesFit(b[|LineOf(b)|..], hint, room - |LineOf(b)|))
  }

  /** A readline within the body is a line of the body, cut at the hint. */
  lemma BodyLineIsCut(s: string, remaining: nat, hint: nat)
    requires hint > 0
    ensures var line := LineOf(Body(s, remaining));
            BodyLine(s, remaining, hint) == line[..Min(hint, |line|)] && (line == "" <==> Body(s, remaining) == "")
  {
    var b := Body(s, remaining);
    LineSatisfies(b);
    if remaining > 0 {
      ReadlineSatisfies(s, Min(hint, remaining));
      assert IsReadline(b, hint, BodyLine(s, remaining, hint));
      ReadlineIs(b, hint, BodyLine(s, remaining, hint));
    }
  }

  /** With a positive hint, the elements are whole lines of the body exactly when
      every line that begins within the first hint bytes is at most hint bytes long. */
  lemma {:induction false} WholeLinesExactly(s: string, remaining: nat, hint: nat, total: nat)
    requires total < hint
    ensures AreFirstLines(Body(s, remaining), BodyLines(s, remaining, hint, total))
            <==> LinesFit(Body(s, remaining), hint, hint - total)
    decreases |s|
  {
    hide AreFirstLines, LinesFit, BodyLine, LineOf;
    var b, line := Body(s, remaining), BodyLine(s, remaining, hint);
    BodyLineIsCut(s, remaining, hint);
    if line == "" {
      NoLineLeft(hint, hint - total);
    } else if |LineOf(b)| > hint {
      CutLine(b, BodyLines(s, remaining, hint, total), hint, hint - total);
    } else {
      assert line == LineOf(b);
      assert Body(s[|line|..], remaining - |line|) == b[|line|..];
      var more := if total + |line| >= hint then []
                  else BodyLines(s[|line|..], remaining - |line|, hint, total + |line|);
      WholeLine(b, more, hint, hint - total);
      if total + |line| < hint {
        WholeLinesExactly(s[|line|..], remaining - |line|, hint, total + |line|);
      } else {
        RoomIsUsed(b[|line|..], hint, hint - total - |line|);
      }
      assert BodyLines(s, remaining, hint, total) == [line] + more;
    }
  }

  lemma NoLineLeft(hint: nat, room: int)
    ensures AreFirstLines("", []) && LinesFit("", hint, room)
  {
  }

  lemma RoomIsUsed(b: string, hint: nat, room: int)
    requires room <= 0
    ensures AreFirstLines(b, []) && LinesFit(b, hint, room)
  {
  }

  lemma WholeLine(b: string, more: seq<string>, hint: nat, room: int)
    requires b != "" && 0 < |LineOf(b)| <= hint && room > 0
    ensures var l := LineOf(b);
            && (AreFirstLines(b, [l] + more) <==> AreFirstLines(b[|l|..], more))
            && (LinesFit(b, hint, room) <==> LinesFit(b[|l|..], hint, room - |l|))
  {
    assert ([LineOf(b)] + more)[1..] == more;
  }

  lemma CutLine(b: string, lines: seq<string>, hint: nat, room: int)
    requires |LineOf(b)| > hint && room > 0 && lines != [] && |lines[0]| <= hint
    ensures !AreFirstLines(b, lines) && !LinesFit(b, hint, room)
  {
  }

  /** Reading from a stream s of which remaining bytes belong to the body. */
  function BodyRead(s: string, remaining: int, size: Size): (data: string)
    ensures |data| <= |s| && data == s[..|data|]
  {
    if remaining == 0 then "" else ReadOf(s, Asked(remaining, size))
  }

  /** Exactly when a read leaves the count of remaining bytes non-negative. */
  lemma RemainingAfterRead(s: string, remaining: nat, size: Size)
    ensures remaining - |BodyRead(s, remaining, size)| >= 0 <==> ReadStays(s, remaining, size)
  {
  }

  /** A size of -1 reads past a body of one byte, and leaves -1 bytes of it. */
  lemma SomeReadPassesTheBody()
    ensures BodyRead("ab", 1, Sized(-1)) == "ab" && 1 - |BodyRead("ab", 1, Sized(-1))| == -1
  {
  }

  lemma RemainingAfterReadline(s: string, remaining: nat, size: Size, data: string)
    requires IsBodyLine(s, remaining, size, data)
    ensures remaining - |data| >= 0 <==> LineStays(s, remaining, size)
  {
    if remaining != 0 && size.Sized? && size.n < 0 {
      LineSatisfies(s);
      ReadlineUnique(s, -1, data, LineOf(s));
    }
  }

  /** With proper sizes the wrapper is a stream of exactly the body: it reads
      what the plain operation reads from the first remaining bytes. */
  lemma BodyIsPrefix(s: string, remaining: nat, size: Size, line: string)
    requires size.Unsized? || size.n >= 0
    requires remaining <= |s| && IsBodyLine(s, remaining, size, line)
    ensures var limit := if size.Unsized? then -1 else size.n;
            && BodyRead(s, remaining, size) == ReadOf(s[..remaining], limit)
            && IsReadline(s[..remaining], limit, line)
  {
  }
}
