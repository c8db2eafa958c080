/** The first line of a chunk (section 3.6.1 of RFC 2616): how HTTPRequest.write prints
    a size, and what ChunkedRFile._fetch of python/http/cherrPy-wsgi.py makes of one. */
module ChunkSizeLine {
  import opened ChunkedTrailer
  import opened Sequences

  const DIGITS := "0123456789abcdef"

  /** hex(n)[2:] */
  function Hex(n: nat): (s: string)
    ensures s != ""
  {
    if n < 16 then [DIGITS[n]] else Hex(n / 16) + [DIGITS[n % 16]]
  }

  /** The value of one hexadecimal digit, or -1. */
  function DigitValue(c: char): int {
    if '0' <= c <= '9' then c as int - '0' as int
    else if 'a' <= c <= 'f' then c as int - 'a' as int + 10
    else if 'A' <= c <= 'F' then c as int - 'A' as int + 10
    else -1
  }

  predicate AllDigits(s: string) {
    s != "" && forall i :: 0 <= i < |s| ==> DigitValue(s[i]) >= 0
  }

  function Value(s: string): int {
    if s == "" then 0 else 16 * Value(s[..|s| - 1]) + DigitValue(s[|s| - 1])
  }

  predicate IsSpace(c: char) {
    c == ' ' || 9 as char <= c <= 13 as char
  }

  predicate AllSpaces(s: string) {
    forall i :: 0 <= i < |s| ==> IsSpace(s[i])
  }

  /** str.strip() */
  function Strip(s: string): string {
    if s == "" then ""
    else if IsSpace(s[0]) then Strip(s[1..])
    else if IsSpace(s[|s| - 1]) then Strip(s[..|s| - 1])
    else s
  }

  /** s.split(";", 1)[0] */
  function BeforeSemicolon(s: string): string {
    if s == "" || s[0] == ';' then "" else [s[0]] + BeforeSemicolon(s[1..])
  }

  datatype Parsed = Number(n: int) | NotANumber

  /** int(s, 16): blanks around, a sign, and a 0x prefix are allowed. */
  function ParseHex(s: string): Parsed {
    var t := Strip(s);
    var negative := t != "" && t[0] == '-';
    var u := if t != "" && (t[0] == '-' || t[0] == '+') then t[1..] else t;
    var v := if |u| >= 2 && u[0] == '0' && (u[1] == 'x' || u[1] == 'X') then u[2..] else u;
    if !AllDigits(v) then NotANumber else Number(if negative then -Value(v) else Value(v))
  }

  /** The chunk size in a chunk's first line. */
  function ChunkSize(line: string): Parsed {
    ParseHex(BeforeSemicolon(Strip(line)))
  }

  /** The number with these digits to base 16, the most significant first. */
  function Base16(ds: seq<nat>): nat {
    if ds == [] then 0 else ds[0] * Power16(|ds| - 1) + Base16(ds[1..])
  }

  function Power16(k: nat): nat {
    if k == 0 then 1 else 16 * Power16(k - 1)
  }

  lemma {:induction false} Base16OneMore(ds: seq<nat>, d: nat)
    ensures Base16(ds + [d]) == 16 * Base16(ds) + d
  {
    if ds == [] {
      assert Power16(0) == 1 && Base16([d][1..]) == 0;
    } else {
      Base16OneMore(ds[1..], d);
      assert (ds + [d])[1..] == ds[1..] + [d];
      Shifted(ds[0], Power16(|ds| - 1), Power16(|ds|));
    }
  }

  lemma Shifted(d: nat, p: nat, q: nat)
    requires q == 16 * p
    ensures d * q == 16 * (d * p)
  {
  }

  /** s is the number ds in hexadecimal, each digit in either case. */
  ghost predicate InHex(s: string, ds: seq<nat>) {
    && |s| == |ds| > 0
    && forall i :: 0 <= i < |ds| ==>
         ds[i] < 16 && (s[i] == "0123456789abcdef"[ds[i]] || s[i] == "0123456789ABCDEF"[ds[i]])
  }

  lemma DigitIs(c: char, d: nat)
    requires d < 16 && (c == "0123456789abcdef"[d] || c == "0123456789ABCDEF"[d])
    ensures DigitValue(c) == d
  {
  }

  lemma {:induction false} ValueIsBase16(s: string, ds: seq<nat>)
    requires InHex(s, ds)
    ensures AllDigits(s) && Value(s) == Base16(ds)
  {
    forall i | 0 <= i < |s| ensures DigitValue(s[i]) == ds[i] {
      DigitIs(s[i], ds[i]);
    }
    var n := |s| - 1;
    assert ds == ds[..n] + [ds[n]];
    Base16OneMore(ds[..n], ds[n]);
    hide DigitValue, Base16;
    if n > 0 {
      ValueIsBase16(s[..n], ds[..n]);
    } else {
      assert s[..0] == "" && ds[..0] == [];
      NoDigits();
    }
  }

  lemma NoDigits()
    ensures Value("") == 0 == Base16([])
  {
  }

  /** Hexadecimal digits are neither blanks nor signs nor separators. */
  lemma DigitsArePlain(s: string)
    requires AllDigits(s)
    ensures !IsSpace(s[0]) && !IsSpace(s[|s| - 1]) && ';' !in s && '\n' !in s
    ensures ParseHex(s) == Number(Value(s)) && Strip(s) == s
  {
    forall c | c in s ensures PlainChar(c) {
      var i :| 0 <= i < |s| && s[i] == c;
      DigitIsPlain(c);
    }
    assert PlainChar(s[0]) && PlainChar(s[|s| - 1]);
    assert |s| >= 2 ==> PlainChar(s[1]);
    hide AllDigits, DigitValue, Value;
  }

  predicate PlainChar(c: char) {
    !IsSpace(c) && c != ';' && c != '\n' && c != '-' && c != '+' && c != 'x' && c != 'X'
  }

  lemma DigitIsPlain(c: char)
    requires DigitValue(c) >= 0
    ensures PlainChar(c)
  {
  }

  /** Blanks at the end do not matter to strip. */
  lemma {:induction false} StripBlanks(s: string, blanks: string)
    requires s != "" && !IsSpace(s[0]) && !IsSpace(s[|s| - 1]) && AllSpaces(blanks)
    ensures Strip(s + blanks) == s
  {
    if blanks == "" {
      assert s + "" == s;
    } else {
      var fewer := blanks[..|blanks| - 1];
      StripBlanks(s, fewer);
      assert (s + blanks)[..|s + blanks| - 1] == s + fewer;
    }
  }

  /** What begins and ends without a blank stays in front. */
  lemma {:induction false} StripKeepsFront(s: string, more: string)
    requires s != "" && !IsSpace(s[0]) && !IsSpace(s[|s| - 1])
    ensures s <= Strip(s + more)
  {
    var all := s + more;
    if more == "" {
      assert all == s;
    } else if IsSpace(more[|more| - 1]) {
      StripKeepsFront(s, more[..|more| - 1]);
      assert all[..|all| - 1] == s + more[..|more| - 1];
    }
  }

  lemma {:induction false} BeforeFirstSemicolon(s: string, more: string)
    requires ';' !in s && (more == "" || more[0] == ';')
    ensures BeforeSemicolon(s + more) == s
  {
    if s == "" {
      assert s + more == more;
    } else {
      BeforeFirstSemicolon(s[1..], more);
      assert (s + more)[1..] == s[1..] + more;
    }
  }

  /** Whatever digits a sender uses for a size, of either case and with zeros in front,
      then blanks, and an extension if there is a semicolon, the size read is the number
      that the digits stand for. */
  lemma SizeOfDigits(s: string, ds: seq<nat>, blanks: string, extension: string)
    requires |s| == |ds| > 0
    requires forall i :: 0 <= i < |ds| ==>
               ds[i] < 16 && (s[i] == "0123456789abcdef"[ds[i]] || s[i] == "0123456789ABCDEF"[ds[i]])
    requires forall i :: 0 <= i < |blanks| ==> blanks[i] == ' ' || blanks[i] == '\t'
    requires extension == "" || extension[0] == ';'
    ensures ChunkSize(s + blanks + extension + CRLF) == Number(Base16(ds))
  {
    ValueIsBase16(s, ds);
    hide Value, Base16, AllDigits, ChunkSize;
    if extension == "" {
      assert s + blanks + extension == s + blanks;
      Associates(s, blanks, CRLF);
      SizeOfBare(s, blanks + CRLF);
    } else {
      var more := extension[1..] + CRLF;
      assert extension == ";" + extension[1..];
      Associates(s + blanks, ";", extension[1..]);
      Associates(s + blanks + ";", extension[1..], CRLF);
      SizeOfExtended(s, blanks, more);
    }
  }

  lemma SizeOfBare(s: string, blanks: string)
    requires AllDigits(s) && AllSpaces(blanks)
    ensures ChunkSize(s + blanks) == Number(Value(s))
  {
    DigitsArePlain(s);
    hide AllDigits, Value, ParseHex, AllSpaces;
    StripBlanks(s, blanks);
    BeforeFirstSemicolon(s, "");
    assert s + "" == s;
  }

  lemma SizeOfExtended(s: string, blanks: string, more: string)
    requires AllDigits(s) && AllSpaces(blanks)
    ensures ChunkSize(s + blanks + ";" + more) == Number(Value(s))
  {
    DigitsArePlain(s);
    assert ';' !in s + blanks;
    hide AllDigits, Value, AllSpaces;
    StripBlanks(s, blanks);
    SameStrip(s + blanks, s);
    var front := s + blanks + ";";
    assert !IsSpace(front[0]) && !IsSpace(front[|front| - 1]) && front[|s + blanks|..] == ";";
    hide ParseHex, IsSpace;
    StripKeepsFront(front, more);
    var stripped := Strip(front + more);
    FrontSplits(s + blanks, stripped);
    BeforeFirstSemicolon(s + blanks, stripped[|s + blanks|..]);
  }

  lemma FrontSplits(a: string, s: string)
    requires a + ";" <= s
    ensures s == a + s[|a|..] && s[|a|..] != "" && s[|a|..][0] == ';'
  {
    assert s[..|a|] == (a + ";")[..|a|] == a;
    assert s[|a|] == (a + ";")[|a|];
  }

  lemma SameStrip(a: string, b: string)
    requires Strip(a) == Strip(b)
    ensures ParseHex(a) == ParseHex(b)
  {
  }

  /** The digits write prints, and what they stand for. */
  lemma {:induction false} HexDigits(n: nat) returns (ds: seq<nat>)
    ensures InHex(Hex(n), ds) && Base16(ds) == n
  {
    if n < 16 {
      ds := [n];
      assert Power16(0) == 1 && Base16(ds[1..]) == 0;
    } else {
      var most := HexDigits(n / 16);
      ds := most + [n % 16];
      Base16OneMore(most, n % 16);
    }
  }

  /** What write prints for a chunk size, ChunkedRFile reads as that size. */
  lemma ChunkSizeRoundTrip(n: nat)
    ensures ChunkSize(Hex(n) + CRLF) == Number(n) && '\n' !in Hex(n)
  {
    var ds := HexDigits(n);
    SizeOfDigits(Hex(n), ds, "", "");
    assert Hex(n) + "" + "" + CRLF == Hex(n) + CRLF;
    ValueIsBase16(Hex(n), ds);
    DigitsArePlain(Hex(n));
  }
}
