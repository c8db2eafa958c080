/** The trailer of a chunked body (section 3.6.1 of RFC 2616), as
    ChunkedRFile.read_trailer_lines of python/http/cherrPy-wsgi.py takes it from a
    stream, and exactly when it accepts one. */
module ChunkedTrailer {
  import opened PlainStream
  import opened Sequences

  const CRLF := "\r\n"

  datatype Fault = NoFault | MaxSize | BadSize | EntityTooLarge | BadCrlf | BadTrailer | NotClosed

  predicate EndsLine(line: string) {
    |line| >= 2 && line[|line| - 2..] == CRLF
  }

  /** A maximum of 0 stands for none. */
  predicate Within(maxlen: int, counted: int) {
    maxlen == 0 || counted <= maxlen
  }

  /** The lines a trailer is made of: one newline, at the end, after a carriage
      return and something else. */
  predicate IsTrailerLine(l: string) {
    EndsLine(l) && l != CRLF && '\n' !in l[..|l| - 1]
  }

  ghost predicate AreTrailerLines(lines: seq<string>) {
    forall i :: 0 <= i < |lines| ==> IsTrailerLine(lines[i])
  }

  datatype Trailer = Trailer(lines: seq<string>, fault: Fault, rest: string)

  /** The loop of read_trailer_lines on a plain string, of which counted bytes have
      been counted before. */
  function ParseTrailer(s: string, maxlen: int, counted: nat): Trailer
    decreases |s|
  {
    var l := LineOf(s);
    var rest := s[|l|..];
    if l == "" then Trailer([], BadTrailer, s)
    else if !Within(maxlen, counted + |l|) then Trailer([], EntityTooLarge, rest)
    else if l == CRLF then Trailer([], NoFault, rest)
    else if !EndsLine(l) then Trailer([], BadTrailer, rest)
    else
      var t := ParseTrailer(rest, maxlen, counted + |l|);
      Trailer([l] + t.lines, t.fault, t.rest)
  }

  lemma FirstLine(first: string, rest: string, line: string)
    requires '\n' !in first && IsReadline(first + CRLF + rest, -1, line)
    ensures line == first + CRLF
  {
    var l := first + CRLF;
    assert l[..|l| - 1] == first + "\r";
    assert IsReadline(l + rest, -1, l);
    ReadlineUnique(l + rest, -1, line, l);
  }

  lemma FirstTrailerLine(l: string, rest: string)
    requires IsTrailerLine(l) || l == CRLF
    ensures LineOf(l + rest) == l && (l + rest)[|l|..] == rest
  {
    var first := l[..|l| - 2];
    assert l == first + CRLF;
    assert forall i :: 0 <= i < |first| ==> l[i] == first[i] && l[i] in l[..|l| - 1];
    LineSatisfies(l + rest);
    FirstLine(first, rest, LineOf(l + rest));
    DropPrefix(l, rest);
  }

  /** After these trailer lines, all within the limit, comes the line l, and then rest. */
  ghost predicate ComesTo(s: string, maxlen: int, counted: nat, lines: seq<string>, l: string, rest: string) {
    && AreTrailerLines(lines)
    && s == Join(lines) + (l + rest)
    && l == LineOf(l + rest)
    && (lines == [] || Within(maxlen, counted + |Join(lines)|))
  }

  /** The line at which the loop stops: the final CRLF, a line beyond the limit, one
      that does not end in CRLF, or the end of the stream. */
  predicate Stops(l: string, maxlen: int, counted: int) {
    l == CRLF || !EndsLine(l) || !Within(maxlen, counted + |l|)
  }

  function FaultOf(l: string, maxlen: int, counted: int): Fault {
    if l == "" then BadTrailer
    else if !Within(maxlen, counted + |l|) then EntityTooLarge
    else if l == CRLF then NoFault
    else BadTrailer
  }

  /** A stream that comes to such a line is parsed up to that line. */
  lemma {:induction false} ParseStops(s: string, maxlen: int, counted: nat, lines: seq<string>, l: string, rest: string)
    requires ComesTo(s, maxlen, counted, lines, l, rest) && Stops(l, maxlen, counted + |Join(lines)|)
    ensures ParseTrailer(s, maxlen, counted) == Trailer(lines, FaultOf(l, maxlen, counted + |Join(lines)|), rest)
    decreases |lines|
  {
    hide ParseTrailer, LineOf;
    if lines == [] {
      assert s == l + rest;
      ParseStep(s, maxlen, counted, l, rest);
    } else {
      var tail := Join(lines[1..]) + (l + rest);
      Associates(lines[0], Join(lines[1..]), l + rest);
      ParseOne(lines[0], tail, maxlen, counted);
      ParseStops(tail, maxlen, counted + |lines[0]|, lines[1..], l, rest);
      assert [lines[0]] + lines[1..] == lines;
    }
  }

  /** One step of the loop. */
  lemma ParseStep(s: string, maxlen: int, counted: nat, l: string, rest: string)
    requires s == l + rest && l == LineOf(s)
    ensures ParseTrailer(s, maxlen, counted)
            == if Stops(l, maxlen, counted) then Trailer([], FaultOf(l, maxlen, counted), rest)
               else
                 var t := ParseTrailer(rest, maxlen, counted + |l|);
                 Trailer([l] + t.lines, t.fault, t.rest)
  {
    DropPrefix(l, rest);
  }

  lemma ParseOne(l: string, rest: string, maxlen: int, counted: nat)
    requires IsTrailerLine(l) && Within(maxlen, counted + |l|)
    ensures var t := ParseTrailer(rest, maxlen, counted + |l|);
            ParseTrailer(l + rest, maxlen, counted) == Trailer([l] + t.lines, t.fault, t.rest)
  {
    FirstTrailerLine(l, rest);
  }

  /** And every stream comes to such a line. */
  lemma {:induction false} ParseComesTo(s: string, maxlen: int, counted: nat)
    returns (lines: seq<string>, l: string, rest: string)
    ensures ComesTo(s, maxlen, counted, lines, l, rest) && Stops(l, maxlen, counted + |Join(lines)|)
    decreases |s|
  {
    l := LineOf(s);
    rest := s[|l|..];
    lines := [];
    assert s == l + rest == Join([]) + (l + rest);
    if !Stops(l, maxlen, counted) {
      var first := l;
      TrailerLine(s);
      lines, l, rest := ParseComesTo(rest, maxlen, counted + |first|);
      var more := lines;
      lines := [first] + more;
      assert lines[1..] == more;
      Associates(first, Join(more), l + rest);
      assert Join(lines) == first + Join(more);
    }
  }

  lemma TrailerLine(s: string)
    requires EndsLine(LineOf(s)) && LineOf(s) != CRLF
    ensures IsTrailerLine(LineOf(s))
  {
    LineSatisfies(s);
  }

  /** A trailer is accepted exactly when it is trailer lines and then CRLF, with a
      count within the limit; it is too large exactly when a line comes that passes
      the limit; and it is bad exactly when, within the limit, a line comes that
      does not end in CRLF, or the stream ends. */
  lemma TrailerExact(s: string, maxlen: int, counted: nat)
    ensures ParseTrailer(s, maxlen, counted).fault == NoFault
            <==> exists lines, rest :: ComesTo(s, maxlen, counted, lines, "\r\n", rest)
                                       && (maxlen == 0 || counted + |Join(lines)| + 2 <= maxlen)
    ensures ParseTrailer(s, maxlen, counted).fault == EntityTooLarge
            <==> exists lines, l, rest :: ComesTo(s, maxlen, counted, lines, l, rest)
                                          && l != "" && maxlen != 0 && counted + |Join(lines)| + |l| > maxlen
    ensures ParseTrailer(s, maxlen, counted).fault == BadTrailer
            <==> exists lines, l, rest :: ComesTo(s, maxlen, counted, lines, l, rest)
                                          && !(|l| >= 2 && l[|l| - 2..] == "\r\n")
                                          && (l == "" || maxlen == 0 || counted + |Join(lines)| + |l| <= maxlen)
    ensures var f := ParseTrailer(s, maxlen, counted).fault; f == NoFault || f == EntityTooLarge || f == BadTrailer
  {
    hide ParseTrailer, ComesTo, Join;
    var lines, l, rest := ParseComesTo(s, maxlen, counted);
    ParseStops(s, maxlen, counted, lines, l, rest);
    forall lines, l, rest | ComesTo(s, maxlen, counted, lines, l, rest) && Stops(l, maxlen, counted + |Join(lines)|)
      ensures ParseTrailer(s, maxlen, counted).fault == FaultOf(l, maxlen, counted + |Join(lines)|)
    {
      ParseStops(s, maxlen, counted, lines, l, rest);
    }
  }

  /** What is accepted is what was taken from the stream, in order. */
  lemma AcceptedIsTaken(s: string, maxlen: int, counted: nat)
    requires ParseTrailer(s, maxlen, counted).fault == NoFault
    ensures var t := ParseTrailer(s, maxlen, counted);
            && (forall i :: 0 <= i < |t.lines| ==>
                  var l := t.lines[i]; |l| > 2 && l[|l| - 2..] == "\r\n" && '\n' !in l[..|l| - 1])
            && s == Join(t.lines) + ("\r\n" + t.rest)
  {
    hide ParseTrailer, LineOf, Join, Within;
    var lines, l, rest := ParseComesTo(s, maxlen, counted);
    ParseStops(s, maxlen, counted, lines, l, rest);
  }

  /** With nothing but CRLF left, the trailer is empty. */
  lemma EmptyTrailer(rest: string, maxlen: int, counted: nat)
    requires Within(maxlen, counted + 2)
    ensures ParseTrailer(CRLF + rest, maxlen, counted) == Trailer([], NoFault, rest)
  {
    FirstTrailerLine(CRLF, rest);
  }
}
