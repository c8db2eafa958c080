/** What reading from a stream means when the whole stream is at hand: the
    reference for every buffered reader of python/http/cherrPy-wsgi.py. */
module PlainStream {

  function Min(a: int, b: int): int {
    if a <= b then a else b
  }

  function Max(a: int, b: int): int {
    if a >= b then a else b
  }

  /** read(size): everything when size is negative. */
  function ReadOf(s: string, size: int): string {
    if size < 0 then s else s[..Min(size, |s|)]
  }

  /** The first line, with its newline; all of s if it has none. */
  function LineOf(s: string): (line: string)
    ensures |line| <= |s| && line == s[..|line|]
  {
    if s == "" then ""
    else if s[0] == '\n' then "\n"
    else [s[0]] + LineOf(s[1..])
  }

  /** readline(size): no limit when size is negative. */
  function ReadlineOf(s: string, size: int): (line: string)
    ensures |line| <= |s| && line == s[..|line|]
  {
    var line := LineOf(s);
    if size < 0 then line else line[..Min(size, |line|)]
  }

  /** str.find of a newline among the first n characters. */
  method FindNewline(s: string, n: nat) returns (nl: int)
    ensures -1 <= nl < Min(n, |s|)
    ensures nl == -1 ==> '\n' !in s[..Min(n, |s|)]
    ensures nl >= 0 ==> s[nl] == '\n' && '\n' !in s[..nl]
  {
    nl := 0;
    while nl < Min(n, |s|)
      invariant 0 <= nl <= Min(n, |s|)
      invariant '\n' !in s[..nl]
    {
      if s[nl] == '\n' {
        return;
      }
      nl := nl + 1;
    }
    nl := -1;
  }

  /** A prefix r of s with no newline before its last character, within the
      limit, that could not have gone on. */
  ghost predicate IsReadline(s: string, size: int, r: string) {
    && r <= s
    && (r == "" || '\n' !in r[..|r| - 1])
    && (size >= 0 ==> |r| <= size)
    && (r == s || (r != "" && r[|r| - 1] == '\n') || (size >= 0 && |r| == size))
  }

  /** That pins down what readline returns. */
  lemma {:induction false} ReadlineIs(s: string, size: int, r: string)
    requires IsReadline(s, size, r)
    ensures r == ReadlineOf(s, size)
  {
    assert forall i :: 0 <= i < |r| - 1 ==> r[i] in r[..|r| - 1];
    if s != "" && r != "" && s[0] != '\n' {
      assert IsReadline(s[1..], if size < 0 then size else size - 1, r[1..]) by {
        if |r| > 1 {
          assert r[1..][..|r| - 2] == r[..|r| - 1][1..];
        }
      }
      ReadlineIs(s[1..], if size < 0 then size else size - 1, r[1..]);
      assert r == [r[0]] + r[1..];
    }
  }

  lemma {:induction false} ReadlineSatisfies(s: string, size: int)
    ensures IsReadline(s, size, ReadlineOf(s, size))
  {
    LineSatisfies(s);
    var line := LineOf(s);
    if size >= 0 && size < |line| {
      assert forall i :: 0 <= i < size - 1 ==> line[i] in line[..|line| - 1];
    }
  }

  /** Two answers to the same readline are the same. */
  lemma ReadlineUnique(s: string, size: int, r: string, r': string)
    requires IsReadline(s, size, r) && IsReadline(s, size, r')
    ensures r == r'
  {
    ReadlineIs(s, size, r);
    ReadlineIs(s, size, r');
  }

  lemma {:induction false} LineSatisfies(s: string)
    ensures IsReadline(s, -1, LineOf(s))
  {
    if s != "" && s[0] != '\n' {
      LineSatisfies(s[1..]);
      var rest := LineOf(s[1..]);
      if rest != "" {
        assert ([s[0]] + rest)[..|rest|] == [s[0]] + rest[..|rest| - 1];
      }
    }
  }

  /** A line that has no newline yet goes on in what follows. */
  lemma {:induction false} LineContinues(a: string, b: string)
    requires '\n' !in a
    ensures LineOf(a + b) == a + LineOf(b)
  {
    if a == "" {
      assert a + b == b;
    } else {
      LineContinues(a[1..], b);
      assert (a + b)[1..] == a[1..] + b;
    }
  }

  /** A readline that neither ends a line nor reaches the limit has taken all
      there was, and there was no newline in it. */
  lemma ReadlineFellShort(s: string, size: int, r: string)
    requires IsReadline(s, size, r)
    requires !(r != "" && r[|r| - 1] == '\n') && |r| != size
    ensures r == s && '\n' !in s && (size >= 0 ==> |s| < size)
  {
    assert s != "" ==> s == s[..|s| - 1] + [s[|s| - 1]];
  }

  /** A line already complete in what came first is the line of the whole. */
  lemma ReadlineOfPrefix(first: string, rest: string, size: int, r: string)
    requires IsReadline(first, size, r)
    requires (r != "" && r[|r| - 1] == '\n') || |r| == size
    ensures IsReadline(first + rest, size, r)
    ensures first[|r|..] + rest == (first + rest)[|r|..]
  {
  }

  /** Without a newline, reading stops at the limit or at the end of the stream. */
  lemma LineIsCut(whole: string, size: int, got: string)
    requires got <= whole && '\n' !in got
    requires got == whole || |got| == size
    requires size >= 0 ==> |got| <= size
    ensures IsReadline(whole, size, got)
  {
  }

  /** The first take characters of a piece complete the line, and the rest of
      the piece stays in front of the unread stream. */
  ghost predicate Completes(whole: string, size: int, got: string, data: string, rest: string, take: nat) {
    && take <= |data|
    && IsReadline(whole, size, got + data[..take])
    && data[take..] + rest == whole[|got + data[..take]|..]
  }

  /** A buffer without a newline, and a piece whose first newline is at nl. */
  lemma LineEnds(whole: string, size: int, got: string, data: string, rest: string, nl: nat)
    requires whole == got + (data + rest) && '\n' !in got
    requires nl < |data| && data[nl] == '\n' && '\n' !in data[..nl]
    requires size >= 0 ==> |got| + nl < size
    ensures Completes(whole, size, got, data, rest, nl + 1)
  {
    var r := got + data[..nl + 1];
    assert r[..|r| - 1] == got + data[..nl];
  }

  /** A piece that reaches the limit before any newline. */
  lemma LineLimit(whole: string, size: nat, got: string, data: string, rest: string)
    requires whole == got + (data + rest) && '\n' !in got
    requires |got| < size && size - |got| <= |data| && '\n' !in data[..size - |got|]
    ensures Completes(whole, size, got, data, rest, size - |got|)
  {
    LineIsCut(whole, size, got + data[..size - |got|]);
  }

  /** Moving a piece from the front of the unread part to the end of the part already read. */
  lemma Advance(whole: string, got: string, unread: string, data: string, rest: string)
    requires whole == got + unread && unread == data + rest
    ensures whole == got + (data + rest) == (got + data) + rest
  {
  }

  /** A piece that completes a read of size bytes. */
  lemma SizeReached(whole: string, size: nat, got: string, data: string, rest: string)
    requires whole == got + (data + rest) && |got| < size <= |got| + |data|
    ensures got + data[..size - |got|] == whole[..size]
    ensures data[size - |got|..] + rest == whole[size..]
  {
  }
}
