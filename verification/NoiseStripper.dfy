/** Blanking of comments and string bodies in a Rust source, offsets kept
    (scripts/check-test-env-globals.py, `strip_noise`). */
module NoiseStripper {
  import opened Common
  import opened RustSource

  /** Spaces for everything but newlines. */
  function Blanked(s: string): string {
    seq(|s|, k requires 0 <= k < |s| => if s[k] == '\n' then '\n' else ' ')
  }

  /** What one turn of the scanner consumes: `len` characters, of which those
      from `from` up to `to` are blanked. */
  datatype Token = Token(len: nat, from: nat, to: nat)

  predicate Fits(t: Token, s: string) {
    1 <= t.len <= |s| && t.from <= t.to <= t.len
  }

  /** What is left in the place of token `t` at the head of `s`. */
  function Left(s: string, t: Token): (r: string)
    requires Fits(t, s)
    ensures |r| == t.len
  {
    s[..t.from] + Blanked(s[t.from..t.to]) + s[t.to..t.len]
  }

  /** Offset of the closing quote in the text after an opening quote; `|s|` when unterminated. */
  function QuoteAt(s: string): (k: nat)
    ensures k <= |s|
    ensures k < |s| ==> s[k] == '"'
  {
    if s == "" || s[0] == '"' then 0
    else if s[0] == '\\' then if |s| == 1 then 1 else 2 + QuoteAt(s[2..])
    else 1 + QuoteAt(s[1..])
  }

  /** The body characters that are not part of an escape. */
  function Collected(s: string): string {
    if s == "" || s[0] == '"' then ""
    else if s[0] == '\\' then if |s| == 1 then "" else Collected(s[2..])
    else [s[0]] + Collected(s[1..])
  }

  predicate IdentStart(c: char) {
    'a' <= c <= 'z' || 'A' <= c <= 'Z' || c == '_'
  }

  predicate IsIdent(s: string) {
    s != "" && IdentStart(s[0]) && forall k :: 0 < k < |s| ==> IdentStart(s[k]) || '0' <= s[k] <= '9'
  }

  /** A letter or an underscore, then letters, underscores and digits. */
  lemma IdentSays(s: string)
    ensures IsIdent(s) <==>
              s != "" && (Letter(s[0]) || s[0] == '_') && forall c :: c in s ==> Letter(c) || c in DIGITS || c == '_'
  {
    forall c: char
      ensures IdentStart(c) <==> Letter(c) || c == '_'
      ensures '0' <= c <= '9' <==> c in DIGITS
    {
      LetterIs(c);
      DigitIs(c);
    }
    hide Letter, DIGITS, IdentStart;
    assert forall k :: 0 <= k < |s| ==> s[k] in s;
  }

  /** The token at the head of `s`. */
  function Head(s: string): (t: Token)
    requires s != ""
    ensures Fits(t, s)
  {
    if "//" <= s then Token(LineLen(s), 0, LineLen(s))
    else if "/*" <= s then
      var n := 2 + BlockLen(s[2..], 1);
      Token(n, 0, n)
    else if s[0] == 'r' && RawMark(s[1..]) then
      var h := Hashes(s[1..]);
      var k := Find(s[h + 2..], RawQuote(h));
      Token(Min(h + 2 + k + h + 1, |s|), h + 2, h + 2 + k)
    else if s[0] == '"' then
      var k := QuoteAt(s[1..]);
      Token(Min(k + 2, |s|), 1, if IsIdent(Collected(s[1..])) then 1 else 1 + k)
    else Token(1, 0, 0)
  }

  lemma HeadLine(s: string)
    requires "//" <= s
    ensures Head(s) == Token(LineLen(s), 0, LineLen(s))
  {
    hide LineLen, BlockLen, Find, QuoteAt, Collected, Hashes;
  }

  lemma HeadBlock(s: string)
    requires "/*" <= s
    ensures var n := 2 + BlockLen(s[2..], 1); Head(s) == Token(n, 0, n)
  {
    hide LineLen, BlockLen, Find, QuoteAt, Collected, Hashes;
    assert s[1] == '*';
  }

  lemma LeftBlank(s: string)
    requires s != ""
    ensures Left(s, Token(|s|, 0, |s|)) == Blanked(s)
  {
    hide Blanked;
    assert s[0..|s|] == s;
    assert s[..0] + Blanked(s) + s[|s|..] == Blanked(s);
  }

  /** The stripped text. */
  function Stripped(s: string): (r: string)
    ensures |r| == |s|
  {
    if s == "" then "" else Left(s, Head(s)) + Stripped(s[Head(s).len..])
  }

  // ---- shape ----

  /** Nothing moves: every character is kept or becomes a space, and never a newline. */
  ghost predicate BlankedFrom(r: string, s: string) {
    |r| == |s| && forall k :: 0 <= k < |s| ==> r[k] == s[k] || (r[k] == ' ' && s[k] != '\n')
  }

  lemma {:induction false} StripShape(s: string)
    ensures BlankedFrom(Stripped(s), s)
  {
    hide Head;
    if s != "" {
      StripShape(s[Head(s).len..]);
    }
  }

  /** Line numbers computed on the stripped text are those of the original. */
  lemma {:induction false} StripKeepsLines(s: string, k: nat)
    requires k <= |s|
    ensures Newlines(Stripped(s)[..k]) == Newlines(s[..k])
  {
    StripShape(s);
    SameNewlines(Stripped(s)[..k], s[..k]);
  }

  lemma {:induction false} SameNewlines(a: string, b: string)
    requires BlankedFrom(a, b)
    ensures Newlines(a) == Newlines(b)
  {
    if a != "" {
      SameNewlines(a[1..], b[1..]);
    }
  }

  // ---- idempotence ----

  lemma StripBlank(c: char, r: string)
    requires c == ' ' || c == '\n'
    ensures Stripped([c] + r) == [c] + Stripped(r)
  {
    var s := [c] + r;
    assert s[0] == c;
    assert Head(s) == Token(1, 0, 0);
    assert s[1..] == r;
    assert Left(s, Head(s)) == [c];
  }

  /** Blank text is stepped over one character at a time. */
  lemma {:induction false} StripBlanks(b: string, r: string)
    requires forall k :: 0 <= k < |b| ==> b[k] == ' ' || b[k] == '\n'
    ensures Stripped(b + r) == b + Stripped(r)
  {
    hide Stripped;
    if b == "" {
      assert b + r == r;
    } else {
      StripBlanks(b[1..], r);
      StripBlank(b[0], b[1..] + r);
      assert b + r == [b[0]] + (b[1..] + r);
      assert b + Stripped(r) == [b[0]] + (b[1..] + Stripped(r));
    }
  }

  lemma RawMarkSurvives(r: string, s: string)
    requires BlankedFrom(r, s) && RawMark(r)
    ensures RawMark(s)
  {
    var h := Hashes(r);
    assert s[h] == '"';
    assert forall j :: 0 <= j < h ==> s[j] == '#';
    assert Hashes(s) == h;
  }

  lemma QuoteStep(c: char, q: string)
    requires c != '"' && c != '\\'
    ensures QuoteAt([c] + q) == 1 + QuoteAt(q)
    ensures Collected([c] + q) == [c] + Collected(q)
  {
    assert ([c] + q)[1..] == q;
  }

  lemma {:induction false} QuoteAtPlain(a: string, q: string)
    requires '"' !in a && '\\' !in a
    ensures QuoteAt(a + q) == |a| + QuoteAt(q)
    ensures Collected(a + q) == a + Collected(q)
  {
    if a == "" {
      assert a + q == q;
    } else {
      hide QuoteAt, Collected;
      var c, b := a[0], a[1..];
      assert a == [c] + b && c in a;
      QuoteAtPlain(b, q);
      QuoteStep(c, b + q);
      Assoc([c], b, q);
      Assoc([c], b, Collected(q));
    }
  }

  /** Scanning a terminated body does not look past its quote. */
  lemma {:induction false} QuoteAtLocal(s: string, r: string)
    requires QuoteAt(s) < |s|
    ensures QuoteAt(s[..QuoteAt(s) + 1] + r) == QuoteAt(s)
    ensures Collected(s[..QuoteAt(s) + 1] + r) == Collected(s)
  {
    hide QuoteAt, Collected;
    if s[0] == '"' {
      QuoteAtHere(s);
      CollectedNone(s);
      QuoteAtHere(s[..1] + r);
      CollectedNone(s[..1] + r);
    } else if s[0] == '\\' {
      QuoteBehind(s);
      QuoteAtLocal(s[2..], r);
      LocalEscape(s[0], s[1], s[2..], r);
      assert s == [s[0], s[1]] + s[2..];
    } else {
      QuoteStep(s[0], s[1..]);
      assert s == [s[0]] + s[1..];
      QuoteAtLocal(s[1..], r);
      LocalPlain(s[0], s[1..], r);
    }
  }

  lemma QuoteBehind(s: string)
    requires s != "" && s[0] == '\\' && QuoteAt(s) < |s|
    ensures |s| > 1 && QuoteAt(s) == 2 + QuoteAt(s[2..])
  {
  }

  lemma LocalPlain(c: char, x: string, r: string)
    requires c != '"' && c != '\\' && QuoteAt(x) < |x|
    requires var f := x[..QuoteAt(x) + 1] + r; QuoteAt(f) == QuoteAt(x) && Collected(f) == Collected(x)
    ensures var (s, k) := ([c] + x, 1 + QuoteAt(x));
            QuoteAt(s[..k + 1] + r) == k && Collected(s[..k + 1] + r) == Collected(s)
  {
    hide QuoteAt, Collected;
    var y := x[..QuoteAt(x) + 1];
    QuoteStep(c, x);
    QuoteStep(c, y + r);
    assert ([c] + x)[..|y| + 1] == [c] + y;
    Assoc([c], y, r);
  }

  lemma LocalEscape(b: char, e: char, x: string, r: string)
    requires b == '\\' && QuoteAt(x) < |x|
    requires var f := x[..QuoteAt(x) + 1] + r; QuoteAt(f) == QuoteAt(x) && Collected(f) == Collected(x)
    ensures var (s, k) := ([b, e] + x, 2 + QuoteAt(x));
            QuoteAt(s[..k + 1] + r) == k && Collected(s[..k + 1] + r) == Collected(s)
  {
    hide QuoteAt, Collected;
    var y := x[..QuoteAt(x) + 1];
    QuoteSkip(e, x);
    QuoteSkip(e, y + r);
    assert ([b, e] + x)[..|y| + 2] == [b, e] + y;
    Assoc([b, e], y, r);
  }

  lemma QuoteSkip(e: char, q: string)
    ensures QuoteAt(['\\', e] + q) == 2 + QuoteAt(q)
    ensures Collected(['\\', e] + q) == Collected(q)
  {
    assert (['\\', e] + q)[2..] == q;
  }

  /** What is left of `s`, followed by anything blanked from the rest, starts with the same token. */
  ghost predicate ReadsAgain(s: string, r: string)
    requires s != ""
  {
    Head(Left(s, Head(s)) + r) == Head(s)
  }

  lemma LeftAgain(s: string, r: string, t: Token)
    requires Fits(t, s)
    ensures Left(Left(s, t) + r, t) == Left(s, t)
  {
  }

  lemma PlainAgain(s: string, r: string)
    requires s != "" && BlankedFrom(r, s[1..]) && Head(s) == Token(1, 0, 0)
    requires !("//" <= s) && !("/*" <= s) && !(s[0] == 'r' && RawMark(s[1..])) && s[0] != '"'
    ensures ReadsAgain(s, r)
  {
    var x := Left(s, Head(s)) + r;
    assert x[0] == s[0] && x[1..] == r;
    if |x| > 1 {
      assert x[1] == r[0] && s[1] == s[1..][0];
    }
    if RawMark(r) {
      RawMarkSurvives(r, s[1..]);
    }
  }

  /** The closing quote is found behind a body that has no quote. */
  lemma FindBehind(w: string, q: string, z: string)
    requires q != "" && q[0] !in w && (z == "" || q <= z)
    ensures Find(w + z, q) == |w|
  {
    var y := w + z;
    forall j | 0 <= j < |w| ensures !(q <= y[j..]) {
      assert y[j..][0] == w[j];
    }
    assert y[|w|..] == z;
    FindIs(y, q, |w|);
  }

  lemma HeadRaw(h: nat, y: string)
    ensures var s := "r" + (Repeat('#', h) + "\"" + y);
            Head(s) == Token(Min(h + 2 + Find(y, RawQuote(h)) + h + 1, |s|), h + 2, h + 2 + Find(y, RawQuote(h)))
  {
    hide Head, Find, RawQuote, RawMark, Hashes, Repeat;
    var x := Repeat('#', h) + "\"" + y;
    RawMarkPrinted(h, y);
    Split("r", x);
    Split(Repeat('#', h) + "\"", y);
    HeadRawAt("r" + x, x, h);
  }

  lemma HeadRawAt(s: string, x: string, h: nat)
    requires s != "" && s[0] == 'r' && s[1..] == x && RawMark(x) && Hashes(x) == h
    ensures var k := Find(x[h + 1..], RawQuote(h));
            Head(s) == Token(Min(h + 2 + k + h + 1, |s|), h + 2, h + 2 + k)
  {
    hide LineLen, BlockLen, Find, QuoteAt, Collected, Hashes, RawQuote;
    assert s[h + 2..] == x[h + 1..];
  }

  lemma RawParts(s: string)
    requires s != "" && s[0] == 'r' && RawMark(s[1..])
    ensures var h := Hashes(s[1..]);
            h + 2 <= |s| && s[..h + 2] == "r" + (Repeat('#', h) + "\"")
  {
    var h := Hashes(s[1..]);
    assert forall j :: 0 <= j < h ==> s[1..][j] == '#';
    assert s[1..][h] == '"';
  }

  lemma RawAgain(s: string, r: string)
    requires s != "" && s[0] == 'r' && RawMark(s[1..])
    requires |r| == |s| - Head(s).len
    ensures ReadsAgain(s, r)
  {
    hide Head, Find, Repeat, RawMark, Left;
    var h := Hashes(s[1..]);
    RawParts(s);
    var k := Find(s[h + 2..], RawQuote(h));
    HeadRawAt(s, s[1..], h);
    RawTail(s, h, k);
    RawAgainAt(s, r, h, k);
  }

  lemma RawAgainAt(s: string, r: string, h: nat, k: nat)
    requires s != "" && h + 2 + k <= |s| && s[..h + 2] == "r" + (Repeat('#', h) + "\"")
    requires Head(s) == Token(Min(h + 2 + k + h + 1, |s|), h + 2, h + 2 + k) && |r| == |s| - Head(s).len
    requires s[h + 2 + k..Head(s).len] == if h + 2 + k == |s| then "" else RawQuote(h)
    ensures ReadsAgain(s, r)
  {
    hide Head, RawQuote, Repeat, Blanked;
    var f, w, z := s[..h + 2], Blanked(s[h + 2..h + 2 + k]), s[h + 2 + k..Head(s).len];
    assert Left(s, Head(s)) == f + w + z;
    hide Left;
    NoQuote(s[h + 2..h + 2 + k]);
    RawReads(h, w, z + r, |s|, k);
    Regroup(f, w, z, r, Repeat('#', h) + "\"");
  }

  lemma NoQuote(s: string)
    ensures |Blanked(s)| == |s| && '"' !in Blanked(s)
  {
  }

  lemma Regroup(f: string, w: string, z: string, r: string, g: string)
    requires f == "r" + g
    ensures f + w + z + r == "r" + (g + (w + (z + r)))
  {
    Assoc(f + w, z, r);
    Assoc(f, w, z + r);
    Assoc("r", g, w + (z + r));
  }

  lemma RawTail(s: string, h: nat, k: nat)
    requires h + 2 <= |s| && k == Find(s[h + 2..], RawQuote(h))
    ensures k < |s| - h - 2 ==>
              h + 2 + k + h + 1 <= |s| && s[h + 2 + k..h + 2 + k + h + 1] == RawQuote(h)
  {
    hide Repeat, Hashes, Find;
    if k < |s| - h - 2 {
      Tail(s, h + 2, k);
      PrefixAt(s, h + 2 + k, RawQuote(h));
    }
  }

  lemma RawReads(h: nat, w: string, z: string, n: nat, k: nat)
    requires '"' !in w && |w| == k && (z == "" || RawQuote(h) <= z)
    requires h + 2 + k + |z| == n
    ensures Head("r" + (Repeat('#', h) + "\"" + (w + z))) == Token(Min(h + 2 + k + h + 1, n), h + 2, h + 2 + k)
  {
    hide Head;
    HeadRaw(h, w + z);
    FindBehind(w, RawQuote(h), z);
  }

  lemma HeadQuoted(s: string)
    requires s != "" && s[0] == '"'
    ensures var k := QuoteAt(s[1..]);
            Head(s) == Token(Min(k + 2, |s|), 1, if IsIdent(Collected(s[1..])) then 1 else 1 + k)
  {
  }

  lemma QuotedUnfolds(s: string)
    requires s != "" && s[0] == '"'
    ensures var k := QuoteAt(s[1..]);
            if IsIdent(Collected(s[1..])) then Left(s, Head(s)) == s[..Min(k + 2, |s|)]
            else Left(s, Head(s)) == s[..1] + Blanked(s[1..1 + k]) + s[1 + k..Min(k + 2, |s|)]
  {
    hide Head, QuoteAt, Collected, IsIdent;
    HeadQuoted(s);
  }

  lemma BlankedFirst(s: string)
    ensures var w := Blanked(s); w == "" || w[0] == ' ' || w[0] == '\n'
  {
  }

  lemma BlankNotIdent(w: string, z: string)
    requires w == "" || w[0] == ' ' || w[0] == '\n'
    requires z == "" || z[0] == '"'
    ensures !IsIdent(w + Collected(z))
  {
    if z != "" {
      assert Collected(z) == "";
    }
  }

  lemma QuotedAgain(s: string, r: string)
    requires s != "" && s[0] == '"' && |r| == |s| - Head(s).len
    ensures ReadsAgain(s, r)
  {
    hide Head, QuoteAt, Collected, IsIdent, Left;
    var t := Head(s);
    var b := s[1..];
    var k := QuoteAt(b);
    var x := Left(s, t) + r;
    HeadQuoted(s);
    QuotedUnfolds(s);
    if IsIdent(Collected(b)) {
      if k < |b| {
        QuoteAtLocal(b, r);
        assert s[..k + 2][1..] == b[..k + 1];
        assert x[1..] == b[..k + 1] + r;
      } else {
        assert x == s;
      }
    } else {
      var w := Blanked(s[1..1 + k]);
      var z := s[1 + k..t.len] + r;
      BlankedFirst(s[1..1 + k]);
      assert k < |b| ==> s[1 + k] == b[k] == '"' && z != "" && z[0] == s[1 + k];
      assert k == |b| ==> z == "";
      assert x[1..] == w + z;
      QuoteAtPlain(w, z);
      BlankNotIdent(w, z);
      assert QuoteAt(z) == 0 by { QuoteAtHere(z); }
    }
    HeadQuoted(x);
  }

  lemma CollectedNone(z: string)
    requires z == "" || z[0] == '"'
    ensures Collected(z) == ""
  {
  }

  lemma QuoteAtHere(z: string)
    requires z == "" || z[0] == '"'
    ensures QuoteAt(z) == 0
  {
  }

  lemma HeadAgain(s: string, r: string)
    requires s != "" && BlankedFrom(r, s[Head(s).len..])
    requires !("//" <= s) && !("/*" <= s)
    ensures ReadsAgain(s, r)
  {
    if s[0] == 'r' && RawMark(s[1..]) {
      RawAgain(s, r);
    } else if s[0] == '"' {
      QuotedAgain(s, r);
    } else {
      PlainAgain(s, r);
    }
  }

  /** Stripping twice is stripping once, on every text. */
  lemma {:induction false} StripIdempotent(s: string)
    ensures Stripped(Stripped(s)) == Stripped(s)
  {
    if s != "" {
      var t := Head(s);
      var r := Stripped(s[t.len..]);
      var x := Left(s, t) + r;
      StripIdempotent(s[t.len..]);
      StripShape(s[t.len..]);
      if "//" <= s || "/*" <= s {
        StripBlanks(Left(s, t), r);
      } else {
        HeadAgain(s, r);
        LeftAgain(s, r, t);
        StripSplits(x, t, r);
      }
    }
  }

  lemma StripSplits(x: string, t: Token, r: string)
    requires x != "" && Head(x) == t && x[t.len..] == r
    ensures Stripped(x) == Left(x, t) + Stripped(r)
  {
  }
}
