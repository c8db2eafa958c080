/** htmlquote and htmlunquote of python/net.py: five replace passes each, in
    opposite orders. */
module HtmlQuote {
  import opened Sequences

  /** str.replace: every occurrence, from the left, without overlaps. */
  function Replace(s: string, pat: string, rep: string): string
    requires pat != ""
    decreases |s|
  {
    if |s| < |pat| then s
    else if s[..|pat|] == pat then rep + Replace(s[|pat|..], pat, rep)
    else [s[0]] + Replace(s[1..], pat, rep)
  }

  function Quote(text: string): string {
    var t1 := Replace(text, "&", "&amp;");
    var t2 := Replace(t1, "<", "&lt;");
    var t3 := Replace(t2, ">", "&gt;");
    var t4 := Replace(t3, "'", "&#39;");
    Replace(t4, "\"", "&quot;")
  }

  function Unquote(text: string): string {
    var t1 := Replace(text, "&quot;", "\"");
    var t2 := Replace(t1, "&#39;", "'");
    var t3 := Replace(t2, "&gt;", ">");
    var t4 := Replace(t3, "&lt;", "<");
    Replace(t4, "&amp;", "&")
  }

  /** The quoted characters and their entities, in the order Quote takes them. */
  const CHARS := "&<>'\""
  const ENTITIES := ["&amp;", "&lt;", "&gt;", "&#39;", "&quot;"]

  /** One character after the first j passes of Quote. */
  function Encoded(j: nat, c: char): (e: string)
    requires j <= 5
    ensures e != ""
  {
    if c == '&' && j > 0 then ENTITIES[0]
    else if c == '<' && j > 1 then ENTITIES[1]
    else if c == '>' && j > 2 then ENTITIES[2]
    else if c == '\'' && j > 3 then ENTITIES[3]
    else if c == '"' && j > 4 then ENTITIES[4]
    else [c]
  }

  /** A text after the first j passes of Quote, character by character. */
  function Enc(j: nat, t: string): string
    requires j <= 5
  {
    if t == "" then "" else Encoded(j, t[0]) + Enc(j, t[1..])
  }

  lemma {:induction false} EncNothing(t: string)
    ensures Enc(0, t) == t
  {
    if t != "" {
      EncNothing(t[1..]);
    }
  }

  /** Text that does not contain the first character of the pattern is passed over. */
  lemma {:induction false} Skip(a: string, rest: string, pat: string, rep: string)
    requires pat != "" && pat[0] !in a
    ensures Replace(a + rest, pat, rep) == a + Replace(rest, pat, rep)
  {
    if a == "" {
      assert a + rest == rest;
    } else {
      Skip(a[1..], rest, pat, rep);
      assert (a + rest)[1..] == a[1..] + rest;
      SkipOne(a + rest, pat, rep);
      assert a + Replace(rest, pat, rep) == [a[0]] + (a[1..] + Replace(rest, pat, rep));
    }
  }

  lemma SkipOne(s: string, pat: string, rep: string)
    requires pat != "" && s != "" && s[0] != pat[0]
    ensures Replace(s, pat, rep) == [s[0]] + Replace(s[1..], pat, rep)
  {
    if |s| >= |pat| {
      assert s[..|pat|][0] == s[0];
    } else {
      Short(s, pat, rep);
      Short(s[1..], pat, rep);
    }
  }

  /** A piece that begins like the pattern but goes on differently is passed over too. */
  lemma SkipOther(e: string, rest: string, pat: string, rep: string)
    requires |pat| >= 2 && |e| >= 2 && e[1] != pat[1] && pat[0] !in e[1..]
    ensures Replace(e + rest, pat, rep) == e + Replace(rest, pat, rep)
  {
    var s := e + rest;
    assert s[1..] == e[1..] + rest;
    Skip(e[1..], rest, pat, rep);
    if |s| >= |pat| {
      assert s[..|pat|][1] == e[1];
    } else {
      Short(e[1..] + rest, pat, rep);
      Short(rest, pat, rep);
    }
  }

  lemma Short(s: string, pat: string, rep: string)
    requires |s| < |pat|
    ensures Replace(s, pat, rep) == s
  {
  }

  /** An occurrence at the front is replaced. */
  lemma Match(rest: string, pat: string, rep: string)
    requires pat != ""
    ensures Replace(pat + rest, pat, rep) == rep + Replace(rest, pat, rep)
  {
    assert (pat + rest)[..|pat|] == pat && (pat + rest)[|pat|..] == rest;
  }

  /** One pass of Quote acts on the text character by character. */
  lemma {:induction false} QuotePass(j: nat, t: string)
    requires j < 5
    ensures Replace(Enc(j, t), [CHARS[j]], ENTITIES[j]) == Enc(j + 1, t)
  {
    if t != "" {
      QuotePass(j, t[1..]);
      var e := Encoded(j, t[0]);
      if t[0] == CHARS[j] {
        Match(Enc(j, t[1..]), [CHARS[j]], ENTITIES[j]);
      } else {
        Skip(e, Enc(j, t[1..]), [CHARS[j]], ENTITIES[j]);
      }
    }
  }

  /** The pass of Unquote for the same character takes that back, and nothing else. */
  lemma {:induction false} UnquotePass(j: nat, t: string)
    requires j < 5
    ensures Replace(Enc(j + 1, t), ENTITIES[j], [CHARS[j]]) == Enc(j, t)
  {
    if t != "" {
      UnquotePass(j, t[1..]);
      UnquoteFirst(j, t[0], Enc(j + 1, t[1..]));
    }
  }

  lemma UnquoteFirst(j: nat, c: char, rest: string)
    requires j < 5
    ensures Replace(Encoded(j + 1, c) + rest, ENTITIES[j], [CHARS[j]])
            == Encoded(j, c) + Replace(rest, ENTITIES[j], [CHARS[j]])
  {
    if c == CHARS[j] {
      EncodedHere(j);
      Match(rest, ENTITIES[j], [CHARS[j]]);
    } else {
      EncodedElsewhere(j, c);
      if |Encoded(j, c)| == 1 {
        Skip(Encoded(j, c), rest, ENTITIES[j], [CHARS[j]]);
      } else {
        SkipOther(Encoded(j, c), rest, ENTITIES[j], [CHARS[j]]);
      }
    }
  }

  lemma EncodedHere(j: nat)
    requires j < 5
    ensures Encoded(j + 1, CHARS[j]) == ENTITIES[j] && Encoded(j, CHARS[j]) == [CHARS[j]]
  {
  }

  /** The other characters are as before the pass, and do not begin like its entity. */
  lemma EncodedElsewhere(j: nat, c: char)
    requires j < 5 && c != CHARS[j]
    ensures Encoded(j + 1, c) == Encoded(j, c)
    ensures var e, pat := Encoded(j, c), ENTITIES[j];
            if |e| == 1 then pat[0] !in e else |pat| >= 2 && |e| >= 2 && e[1] != pat[1] && pat[0] !in e[1..]
  {
  }

  lemma QuoteIsEnc(t: string)
    ensures Quote(t) == Enc(5, t)
  {
    EncNothing(t);
    QuotePass(0, t);
    QuotePass(1, t);
    QuotePass(2, t);
    QuotePass(3, t);
    QuotePass(4, t);
  }

  /** Unquoting what was quoted gives the text back, for every text. */
  lemma RoundTrip(t: string)
    ensures Unquote(Quote(t)) == t
  {
    QuoteIsEnc(t);
    UnquotePass(4, t);
    UnquotePass(3, t);
    UnquotePass(2, t);
    UnquotePass(1, t);
    UnquotePass(0, t);
    EncNothing(t);
  }

  predicate Raw(c: char) {
    c == '<' || c == '>' || c == '\'' || c == '"'
  }

  /** There is one of the five entities at position i. */
  predicate EntityAt(s: string, i: nat)
    requires i <= |s|
  {
    exists k :: 0 <= k < 5 && ENTITIES[k] <= s[i..]
  }

  /** Safe to put into HTML: no raw angle bracket or quotation mark, and every
      ampersand begins one of the five entities. */
  ghost predicate Safe(s: string) {
    forall i :: 0 <= i < |s| ==> !Raw(s[i]) && (s[i] == '&' ==> EntityAt(s, i))
  }

  lemma EntityAfter(e: string, rest: string, i: nat)
    requires i <= |rest| && EntityAt(rest, i)
    ensures EntityAt(e + rest, |e| + i)
  {
    var k :| 0 <= k < 5 && ENTITIES[k] <= rest[i..];
    assert (e + rest)[|e| + i..] == rest[i..];
  }

  /** What a character becomes is safe in front of anything safe. */
  lemma EncodedIsSafe(c: char, rest: string)
    requires Safe(rest)
    ensures Safe(Encoded(5, c) + rest)
  {
    var e := Encoded(5, c);
    var whole := e + rest;
    assert e[0] == '&' ==> EntityAt(whole, 0) by {
      if e[0] == '&' {
        var k := EntityOf(c);
        assert ENTITIES[k] <= whole[0..];
      }
    }
    PlainTail(c);
    forall i | |e| <= i < |whole| ensures !Raw(whole[i]) && (whole[i] == '&' ==> EntityAt(whole, i)) {
      assert whole[i] == rest[i - |e|];
      if whole[i] == '&' {
        EntityAfter(e, rest, i - |e|);
      }
    }
  }

  lemma EntityOf(c: char) returns (k: nat)
    requires Encoded(5, c)[0] == '&'
    ensures k < 5 && Encoded(5, c) == ENTITIES[k]
  {
    k := if c == '&' then 0 else if c == '<' then 1 else if c == '>' then 2 else if c == '\'' then 3 else 4;
  }

  /** An entity holds one ampersand, its first character, and nothing raw. */
  lemma PlainTail(c: char)
    ensures var e := Encoded(5, c);
            e != "" && forall i :: 0 <= i < |e| ==> !Raw(e[i]) && (e[i] == '&' ==> i == 0)
  {
  }

  lemma {:induction false} EncIsSafe(t: string)
    ensures Safe(Enc(5, t))
  {
    if t != "" {
      EncIsSafe(t[1..]);
      EncodedIsSafe(t[0], Enc(5, t[1..]));
    }
  }

  lemma QuotedIsSafe(t: string)
    ensures Safe(Quote(t))
  {
    QuoteIsEnc(t);
    EncIsSafe(t);
  }

  /** Quoting replaces character by character, and these five by the entities that HTML
      has for them. */
  lemma QuoteIsStandard(a: string, c: char, b: string)
    ensures Quote(a + [c] + b)
            == Quote(a)
               + (if c == '&' then "&amp;" else if c == '<' then "&lt;" else if c == '>' then "&gt;"
                  else if c == '\'' then "&#39;" else if c == '"' then "&quot;" else [c])
               + Quote(b)
  {
    QuoteIsEnc(a + [c] + b);
    QuoteIsEnc(a);
    QuoteIsEnc(b);
    EncConcat(5, a + [c], b);
    EncConcat(5, a, [c]);
    EncOne(5, c);
  }

  lemma EncOne(j: nat, c: char)
    requires j <= 5
    ensures Enc(j, [c]) == Encoded(j, c)
  {
    assert [c][1..] == "";
  }

  lemma {:induction false} EncConcat(j: nat, a: string, b: string)
    requires j <= 5
    ensures Enc(j, a + b) == Enc(j, a) + Enc(j, b)
  {
    if a == "" {
      assert a + b == b;
    } else {
      hide Encoded;
      EncConcat(j, a[1..], b);
      assert (a + b)[1..] == a[1..] + b;
      Associates(Encoded(j, a[0]), Enc(j, a[1..]), Enc(j, b));
    }
  }
}
