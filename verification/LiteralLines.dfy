/** The line yielded with each character of a literal, for the literals of a file
    (scripts/check-message-whitespace.py, `iter_literals`). */
module LiteralLines {
  import opened Common
  import opened LiteralLexer
  import opened LiteralScan
  import opened LiteralSplice

  // ---- a lone backslash at the end ----

  /** How many backslashes `s` ends in. */
  function Backslashes(s: string): (n: nat)
    ensures n <= |s|
  {
    if s == "" || s[|s| - 1] != '\\' then 0 else 1 + Backslashes(s[..|s| - 1])
  }

  lemma {:induction false} BackslashesBehind(a: string, b: string)
    ensures Backslashes(a + b) == Backslashes(b) + if Backslashes(b) == |b| then Backslashes(a) else 0
    decreases |b|
  {
    var s := a + b;
    if b == "" {
      assert s == a;
    } else {
      var front := b[..|b| - 1];
      assert s[..|s| - 1] == a + front && s[|s| - 1] == b[|b| - 1];
      BackslashesBehind(a, front);
    }
  }

  /** In front of the rest of a body, a token with an even number of backslashes at its end
      leaves it as it was whether the body ends in a lone one. */
  lemma EvenInFront(s: string, k: nat)
    requires 0 < k <= |s| && Backslashes(s[..k]) % 2 == 0
    ensures Backslashes(s) % 2 == Backslashes(s[k..]) % 2
  {
    hide Backslashes;
    var a, b := s[..k], s[k..];
    assert s == a + b;
    BackslashesBehind(a, b);
    EvenAdded(Backslashes(b), Backslashes(a));
  }

  lemma EvenAdded(n: nat, m: nat)
    requires m % 2 == 0
    ensures (n + m) % 2 == n % 2
  {
  }

  lemma NoneAtEnd(s: string)
    requires s != "" && s[|s| - 1] != '\\'
    ensures Backslashes(s) == 0
  {
  }

  lemma PairAtEnd(e: char)
    ensures Backslashes(['\\', e]) == if e == '\\' then 2 else 0
  {
    var s := ['\\', e];
    assert s[..1] == ['\\'] && s[..1][..0] == "";
  }

  /** The reader stops in a lone backslash exactly when the body is not closed before the end
      of the text and the text ends in an odd number of backslashes. */
  lemma {:induction false} DanglingIff(s: string)
    ensures var b := ReadBody(s, 0); b.end.Dangling? <==> b.len == |s| && Backslashes(s) % 2 == 1
    decreases |s|
  {
    hide ReadBody, Blanks, Backslashes;
    if s == "" {
      EmptyOpens(0);
    } else if s[0] == '"' {
      QuoteOpens(s, 0);
      NoneAtEnd("\"");
      assert |s| == 1 ==> s == "\"";
    } else if s[0] != '\\' {
      ReadsPlain(s);
      DanglingIff(s[1..]);
      NoneAtEnd(s[..1]);
      EvenInFront(s, 1);
    } else if |s| == 1 {
      LoneOpens(s, 0);
      LoneCounts();
      assert s == "\\";
    } else if s[1] == '\n' {
      var k := 2 + Blanks(s[2..]);
      ReadsContinuation(s, k);
      assert s[k - 1] == s[..k][k - 1] && (k > 2 ==> s[k - 1] == s[2..][k - 3]);
      DanglingIff(s[k..]);
      NoneAtEnd(s[..k]);
      EvenInFront(s, k);
    } else {
      ReadsEscape(s);
      DanglingIff(s[2..]);
      PairAtEnd(s[1]);
      assert s[..2] == ['\\', s[1]];
      EvenInFront(s, 2);
    }
  }

  lemma LoneCounts()
    ensures Backslashes("\\") == 1
  {
    assert "\\"[..0] == "";
  }

  // ---- which characters are yielded ----

  /** Offset `p` belongs to a backslash, a newline and the blanks behind it. */
  ghost predicate InContinuation(s: string, p: nat) {
    exists q: nat :: ContinuationAt(s, q, p)
  }

  predicate ContinuationAt(s: string, q: nat, p: nat) {
    q <= p < |s| && "\\\n" <= s[q..] && forall j :: q + 2 <= j <= p ==> IsBlank(s[j])
  }

  lemma ContinuationLater(s: string, k: nat, p: nat)
    requires k <= p && k <= |s| && InContinuation(s[k..], p - k)
    ensures InContinuation(s, p)
  {
    var q: nat :| ContinuationAt(s[k..], q, p - k);
    Tail(s, k, q);
    assert forall j :: k + q + 2 <= j <= p ==> s[j] == s[k..][j - k];
    assert ContinuationAt(s, k + q, p);
  }

  /** Each character of the body is yielded, or belongs to a continuation, or is the closing quote. */
  ghost predicate Covered(s: string, off: nat, b: Body, p: nat) {
    off + p in b.at || InContinuation(s, p) || (b.end == Closed && p == b.len - 1 && p < |s| && s[p] == '"')
  }

  ghost predicate AllCovered(s: string, off: nat, b: Body) {
    (forall x :: x in b.at ==> off <= x < off + b.len) && forall p: nat :: p < b.len ==> Covered(s, off, b, p)
  }

  lemma ContinuationInFront(s: string)
    requires |s| > 1 && s[0] == '\\' && s[1] == '\n'
    ensures 2 + Blanks(s[2..]) <= |s| && forall p: nat :: p < 2 + Blanks(s[2..]) ==> InContinuation(s, p)
  {
    hide Blanks;
    var k := 2 + Blanks(s[2..]);
    forall p: nat | p < k ensures InContinuation(s, p) {
      assert s[0..] == s && forall j :: 2 <= j < k ==> s[j] == s[2..][j - 2];
      assert ContinuationAt(s, 0, p);
    }
  }

  lemma CoveredAtEnd(s: string, off: nat)
    requires s == "" || s[0] == '"' || s == "\\"
    ensures AllCovered(s, off, ReadBody(s, off))
  {
    hide InContinuation;
  }

  lemma CoverPlain(s: string, off: nat)
    requires s != "" && s[0] != '"' && s[0] != '\\' && AllCovered(s[1..], off + 1, ReadBody(s[1..], off + 1))
    ensures AllCovered(s, off, ReadBody(s, off))
  {
    BodyOpens(s, off);
    hide ReadBody, AllCovered, Behind, InContinuation;
    CoveredBehind(s, off, 1, [s[0]], [off]);
  }

  lemma CoverEscape(s: string, off: nat)
    requires |s| > 1 && s[0] == '\\' && s[1] != '\n' && AllCovered(s[2..], off + 2, ReadBody(s[2..], off + 2))
    ensures AllCovered(s, off, ReadBody(s, off))
  {
    BodyOpens(s, off);
    hide ReadBody, AllCovered, Behind, InContinuation, Blanks;
    CoveredBehind(s, off, 2, s[..2], [off, off + 1]);
  }

  lemma CoverContinuation(s: string, off: nat, k: nat)
    requires |s| > 1 && s[0] == '\\' && s[1] == '\n' && k == 2 + Blanks(s[2..])
    requires AllCovered(s[k..], off + k, ReadBody(s[k..], off + k))
    ensures AllCovered(s, off, ReadBody(s, off))
  {
    hide ReadBody, AllCovered, Behind, InContinuation, Blanks;
    ContinuationOpens(s, off);
    ContinuationInFront(s);
    CoveredBehind(s, off, k, "", []);
  }

  lemma {:induction false} EveryCharacter(s: string, off: nat)
    ensures AllCovered(s, off, ReadBody(s, off))
    decreases |s|
  {
    if s == "" || s[0] == '"' || s == "\\" {
      CoveredAtEnd(s, off);
    } else {
      hide ReadBody, Blanks, AllCovered;
      if s[0] != '\\' {
        EveryCharacter(s[1..], off + 1);
        CoverPlain(s, off);
      } else if s[1] == '\n' {
        var k := 2 + Blanks(s[2..]);
        EveryCharacter(s[k..], off + k);
        CoverContinuation(s, off, k);
      } else {
        EveryCharacter(s[2..], off + 2);
        CoverEscape(s, off);
      }
    }
  }

  lemma CoveredBehind(s: string, off: nat, k: nat, text: string, at: seq<nat>)
    requires 0 < k <= |s| && |text| == |at|
    requires forall x :: x in at ==> off <= x < off + k
    requires forall p: nat :: p < k ==> off + p in at || InContinuation(s, p)
    requires AllCovered(s[k..], off + k, ReadBody(s[k..], off + k))
    ensures AllCovered(s, off, Behind(k, text, at, ReadBody(s[k..], off + k)))
  {
    hide ReadBody, InContinuation;
    var r := ReadBody(s[k..], off + k);
    var b := Behind(k, text, at, r);
    forall p: nat | p < b.len ensures Covered(s, off, b, p) {
      if p >= k {
        assert Covered(s[k..], off + k, r, p - k);
        if InContinuation(s[k..], p - k) {
          ContinuationLater(s, k, p);
        }
      }
    }
  }

  // ---- the literals of a file ----

  /** What is yielded for a literal, whatever it was read from. */
  lemma YieldSays(t: string, l: Lexeme)
    requires l.open < |t| && Within(t, l.body)
    ensures var y := YieldOf(t, l);
            y.text == "\"" + l.body.text + "\"" && y.lines != [] && y.lines[0] == 1 + Newlines(t[..l.open]) &&
            |y.lines| == |y.text| + (if l.body.end.Dangling? then 1 else 0) &&
            forall k :: 0 <= k < |l.body.text| ==>
              y.text[k + 1] == t[l.body.at[k]] && y.lines[k + 1] == 1 + Newlines(t[..l.body.at[k]])
  {
  }

  lemma {:induction false} LexemeReads(prev: char, t: string, p: nat, l: Lexeme)
    requires p <= |t| && l in Lex(prev, t[p..], p)
    ensures p <= l.open < |t| && t[l.open] == '"' && l.body == ReadBody(t[l.open + 1..], l.open + 1)
    decreases |t| - p
  {
    hide TokenLen, ReadBody, HeadLexeme;
    var s := t[p..];
    if s != "" {
      var n := LexStep(prev, t, p);
      hide Lex;
      Tail(t, p, 1);
      if l in HeadLexeme(prev, s, p) {
        HeadReads(prev, s, p, l);
      } else {
        LexemeReads(t[p + n - 1], t, p + n, l);
      }
    }
  }

  lemma Yielded(t: string, l: Lexeme)
    requires l in Lexemes(t)
    ensures l.open < |t| && Within(t, l.body)
  {
    hide Lex, Within;
    assert t[0..] == t;
    LexWithin(' ', t, 0);
  }

  /** The literal that opens at `open` runs unclosed to the end of the file, and the file ends in
      an odd number of backslashes behind its quote: the last escapes nothing. */
  predicate EndsInLoneBackslash(t: string, l: Lexeme) {
    l.open < |t| && l.open + 1 + l.body.len == |t| && Backslashes(t[l.open + 1..]) % 2 == 1
  }

  /** For every literal of a file: its characters are those of the file at increasing offsets
      between its quotes, only continuations being passed over; each carries one plus the
      newlines before it; and there is one line too many exactly when the literal
      ends the file in a lone backslash. */
  lemma LinesLineUp(t: string, l: Lexeme)
    requires l in Lexemes(t)
    ensures l.open < |t| && t[l.open] == '"' && l.open + 1 + l.body.len <= |t| && Within(t, l.body)
    ensures IncreasingFrom(l.body.at, l.open + 1)
    ensures forall p :: l.open < p < l.open + 1 + l.body.len && p !in l.body.at ==>
              InContinuation(t[l.open + 1..], p - l.open - 1) || (p == l.open + l.body.len && t[p] == '"')
    ensures var y := YieldOf(t, l);
            y.text == "\"" + l.body.text + "\"" && y.lines[0] == 1 + Newlines(t[..l.open]) &&
            (forall k :: 0 <= k < |l.body.text| ==>
               y.text[k + 1] == t[l.body.at[k]] && y.lines[k + 1] == 1 + Newlines(t[..l.body.at[k]])) &&
            |y.lines| == |y.text| + if EndsInLoneBackslash(t, l) then 1 else 0
  {
    hide ReadBody, Lex, Backslashes, InContinuation, YieldOf, Within, Newlines, IncreasingFrom;
    assert t[0..] == t;
    Yielded(t, l);
    LexemeReads(' ', t, 0, l);
    YieldSays(t, l);
    var s := t[l.open + 1..];
    DanglingIff(s);
    BodyShift(s, l.open + 1);
    OffsetsIncrease(s, l.open + 1);
    EveryCharacter(s, l.open + 1);
    forall p | l.open < p < l.open + 1 + l.body.len && p !in l.body.at
      ensures InContinuation(s, p - l.open - 1) || (p == l.open + l.body.len && t[p] == '"')
    {
      assert Covered(s, l.open + 1, l.body, p - l.open - 1);
    }
  }

  const LONE := "\"a\\"

  /** A file that ends in a lone backslash within a literal: four characters, five lines. */
  lemma LoneBackslash()
    ensures var l := Lexeme(0, Body(2, "a\\", [1, 2], Dangling));
            l in Lexemes(LONE) && EndsInLoneBackslash(LONE, l) && Within(LONE, l.body) &&
            |YieldOf(LONE, l).text| == 4 && |YieldOf(LONE, l).lines| == 5
  {
    var l := Lexeme(0, Body(2, "a\\", [1, 2], Dangling));
    LoneLexed(l);
    LoneEnds(l);
    hide Lex, YieldOf, EndsInLoneBackslash, Within, Newlines;
    Yielded(LONE, l);
    YieldCounts(LONE, l);
  }

  lemma YieldCounts(t: string, l: Lexeme)
    requires l.open < |t| && Within(t, l.body)
    ensures var y := YieldOf(t, l);
            |y.text| == |l.body.text| + 2 && |y.lines| == |y.text| + if l.body.end.Dangling? then 1 else 0
  {
  }

  lemma LoneLexed(l: Lexeme)
    requires l == Lexeme(0, Body(2, "a\\", [1, 2], Dangling))
    ensures l in Lexemes(LONE)
  {
    LoneReads();
    hide ReadBody, TokenLen, Lex;
    LexSplits(' ', LONE, 0);
  }

  lemma LoneEnds(l: Lexeme)
    requires l == Lexeme(0, Body(2, "a\\", [1, 2], Dangling))
    ensures EndsInLoneBackslash(LONE, l)
  {
    LoneCounts();
    NoneAtEnd("a");
    hide Backslashes;
    BackslashesBehind("a", "\\");
    assert "a" + "\\" == LONE[1..];
  }

  lemma LoneReads()
    ensures ReadBody(LONE[1..], 1) == Body(2, "a\\", [1, 2], Dangling) && TokenLen(' ', LONE) == 3
  {
    hide ReadBody, TokenLen;
    var body := "a\\";
    assert LONE[1..] == body && body[1..] == "\\" && LONE[0] == '"';
    PlainOpens(body, 1);
    LoneOpens("\\", 2);
    TokenLiteral(' ', LONE);
    ReadBodyShift(body, 0, 1);
  }
}
