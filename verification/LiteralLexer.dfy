/** What the whole-file string literal reader must yield
    (scripts/check-message-whitespace.py, `iter_literals`): the ordinary string
    literals of a Rust source with, for every body character, the offset it came from. */
module LiteralLexer {
  import opened Common
  import opened RustSource

  predicate IsWord(c: char) {
    'a' <= c <= 'z' || 'A' <= c <= 'Z' || '0' <= c <= '9' || c == '_'
  }

  lemma WordSays(c: char)
    ensures IsWord(c) <==> Letter(c) || c in DIGITS || c == '_'
  {
    LetterIs(c);
    DigitIs(c);
  }

  predicate IsBlank(c: char) {
    c == ' ' || c == '\t'
  }

  /** Length of the complete character literal at the head of `s`, 0 when there is none. */
  function CharLitLen(s: string): (k: nat)
    ensures k <= |s|
  {
    if |s| >= 3 && s[0] == '\'' && s[1] !in {'\'', '\\', '\n'} && s[2] == '\'' then 3
    else if |s| >= 4 && s[0] == '\'' && s[1] == '\\' && s[2] != '\n' && s[3] == '\'' then 4
    else 0
  }

  /** Length of the letters that may open a raw string. */
  function RawPrefix(s: string): (k: nat)
    ensures k <= |s|
  {
    if "br" <= s then 2 else if "r" <= s then 1 else 0
  }

  predicate RawOpens(s: string) {
    RawPrefix(s) > 0 && RawMark(s[RawPrefix(s)..])
  }

  /** Length of the raw string at the head of `s`, to the end of the text when unterminated. */
  function RawLen(s: string): (k: nat)
    requires RawOpens(s)
    ensures 1 <= k <= |s|
  {
    var h := Hashes(s[RawPrefix(s)..]);
    var b := RawPrefix(s) + h + 1;
    Min(b + Find(s[b..], RawQuote(h)) + h + 1, |s|)
  }

  datatype End = Closed | Unclosed | Dangling

  /** A literal body: characters consumed, its text, the offset of each character
      of the text, and how it ended (`Dangling`: in a lone backslash at the end of file). */
  datatype Body = Body(len: nat, text: string, at: seq<nat>, end: End)

  /** Number of leading blanks. */
  function Blanks(s: string): (k: nat)
    ensures k <= |s|
    ensures forall j :: 0 <= j < k ==> IsBlank(s[j])
    ensures k < |s| ==> !IsBlank(s[k])
  {
    if s == "" || !IsBlank(s[0]) then 0 else 1 + Blanks(s[1..])
  }

  function Behind(len: nat, text: string, at: seq<nat>, rest: Body): Body {
    Body(len + rest.len, text + rest.text, at + rest.at, rest.end)
  }

  /** The body that follows an opening quote; `s` starts at offset `off`. */
  function ReadBody(s: string, off: nat): (b: Body)
    ensures b.len <= |s| && |b.text| == |b.at|
    decreases |s|
  {
    if s == "" then Body(0, "", [], Unclosed)
    else if s[0] == '"' then Body(1, "", [], Closed)
    else if s[0] != '\\' then Behind(1, [s[0]], [off], ReadBody(s[1..], off + 1))
    else if |s| == 1 then Body(1, "\\", [off], Dangling)
    else if s[1] == '\n' then
      var k := 2 + Blanks(s[2..]);
      Behind(k, "", [], ReadBody(s[k..], off + k))
    else Behind(2, s[..2], [off, off + 1], ReadBody(s[2..], off + 2))
  }

  /** One turn of the body reader. */
  lemma BodyOpens(s: string, off: nat)
    requires s != ""
    ensures ReadBody(s, off) ==
            if s[0] == '"' then Body(1, "", [], Closed)
            else if s[0] != '\\' then Behind(1, [s[0]], [off], ReadBody(s[1..], off + 1))
            else if |s| == 1 then Body(1, "\\", [off], Dangling)
            else if s[1] == '\n' then
              var k := 2 + Blanks(s[2..]);
              Behind(k, "", [], ReadBody(s[k..], off + k))
            else Behind(2, s[..2], [off, off + 1], ReadBody(s[2..], off + 2))
  {
    hide Blanks, Behind;
  }

  // The same, case by case.

  lemma EmptyOpens(off: nat)
    ensures ReadBody("", off) == Body(0, "", [], Unclosed)
  {
  }

  lemma QuoteOpens(s: string, off: nat)
    requires s != "" && s[0] == '"'
    ensures ReadBody(s, off) == Body(1, "", [], Closed)
  {
    BodyOpens(s, off);
    hide ReadBody;
  }

  lemma PlainOpens(s: string, off: nat)
    requires s != "" && s[0] != '"' && s[0] != '\\'
    ensures ReadBody(s, off) == Behind(1, [s[0]], [off], ReadBody(s[1..], off + 1))
  {
    BodyOpens(s, off);
    hide ReadBody, Behind;
  }

  lemma LoneOpens(s: string, off: nat)
    requires |s| == 1 && s[0] == '\\'
    ensures ReadBody(s, off) == Body(1, "\\", [off], Dangling)
  {
    BodyOpens(s, off);
    hide ReadBody;
  }

  lemma ContinuationOpens(s: string, off: nat)
    requires |s| > 1 && s[0] == '\\' && s[1] == '\n'
    ensures var k := 2 + Blanks(s[2..]);
            ReadBody(s, off) == Behind(k, "", [], ReadBody(s[k..], off + k))
  {
    BodyOpens(s, off);
    hide ReadBody, Behind, Blanks;
  }

  lemma EscapeOpens(s: string, off: nat)
    requires |s| > 1 && s[0] == '\\' && s[1] != '\n'
    ensures ReadBody(s, off) == Behind(2, s[..2], [off, off + 1], ReadBody(s[2..], off + 2))
  {
    BodyOpens(s, off);
    hide ReadBody, Behind;
  }

  datatype Lexeme = Lexeme(open: nat, body: Body)

  predicate OpensLiteral(prev: char, s: string) {
    s != "" && s[0] == '"' && !IsWord(prev)
  }

  /** Length of the token at the head of `s`; `prev` is the character before it. */
  function TokenLen(prev: char, s: string): (n: nat)
    requires s != ""
    ensures 1 <= n <= |s|
  {
    if s[0] == '\n' then 1
    else if "//" <= s then LineLen(s)
    else if "/*" <= s then 2 + BlockLen(s[2..], 1)
    else if s[0] == '\'' then if CharLitLen(s) > 0 then CharLitLen(s) else 1
    else if RawOpens(s) && !IsWord(prev) then RawLen(s)
    else if OpensLiteral(prev, s) then 1 + ReadBody(s[1..], 0).len
    else 1
  }

  /** The literal at the head of `s`, if one opens there. */
  function HeadLexeme(prev: char, s: string, off: nat): seq<Lexeme> {
    if OpensLiteral(prev, s) then [Lexeme(off, ReadBody(s[1..], off + 1))] else []
  }

  /** Every literal of `s`, in order. */
  function Lex(prev: char, s: string, off: nat): seq<Lexeme>
    decreases |s|
  {
    if s == "" then []
    else
      var n := TokenLen(prev, s);
      HeadLexeme(prev, s, off) + Lex(s[n - 1], s[n..], off + n)
  }

  /** The literals of a whole file. */
  function Lexemes(t: string): seq<Lexeme> {
    Lex(' ', t, 0)
  }

  // ---- what is yielded ----

  /** The 1-based line on which offset `p` of `t` lies. */
  function LineOf(t: string, p: nat): nat
    requires p <= |t|
  {
    1 + Newlines(t[..p])
  }

  /** The source spelling of a literal, quotes included, and a line for each of its characters. */
  datatype Literal = Literal(text: string, lines: seq<nat>)

  ghost predicate Within(t: string, b: Body) {
    |b.text| == |b.at| && forall k :: 0 <= k < |b.at| ==> b.at[k] < |t| && t[b.at[k]] == b.text[k]
  }

  function LinesAt(t: string, at: seq<nat>): (ls: seq<nat>)
    requires forall k :: 0 <= k < |at| ==> at[k] < |t|
    ensures |ls| == |at|
  {
    seq(|at|, k requires 0 <= k < |at| => LineOf(t, at[k]))
  }

  function YieldOf(t: string, l: Lexeme): Literal
    requires l.open < |t| && Within(t, l.body)
  {
    var first := LineOf(t, l.open);
    var inner := LinesAt(t, l.body.at);
    var last := if inner == [] then first else inner[|inner| - 1];
    Literal("\"" + l.body.text + "\"",
            [first] + inner + (if l.body.end.Dangling? then [last] else []) + [last])
  }

  lemma WithinBehind(t: string, len: nat, text: string, at: seq<nat>, rest: Body)
    requires Within(t, Body(len, text, at, Closed)) && Within(t, rest)
    ensures Within(t, Behind(len, text, at, rest))
  {
  }

  /** Offsets are those of the whole text. */
  lemma {:induction false} ReadBodyWithin(t: string, p: nat)
    requires p <= |t|
    ensures Within(t, ReadBody(t[p..], p))
    decreases |t| - p
  {
    hide Blanks, Behind;
    var s := t[p..];
    if s == "" || s[0] == '"' {
    } else if s[0] != '\\' {
      assert s[1..] == t[p + 1..];
      ReadBodyWithin(t, p + 1);
      WithinBehind(t, 1, [s[0]], [p], ReadBody(s[1..], p + 1));
    } else if |s| == 1 {
    } else if s[1] == '\n' {
      var k := 2 + Blanks(s[2..]);
      assert s[k..] == t[p + k..];
      ReadBodyWithin(t, p + k);
      WithinBehind(t, k, "", [], ReadBody(s[k..], p + k));
    } else {
      assert s[2..] == t[p + 2..];
      ReadBodyWithin(t, p + 2);
      WithinBehind(t, 2, s[..2], [p, p + 1], ReadBody(s[2..], p + 2));
    }
  }

  ghost predicate AllWithin(t: string, ls: seq<Lexeme>, from: nat) {
    forall k :: 0 <= k < |ls| ==> from <= ls[k].open < |t| && Within(t, ls[k].body)
  }

  lemma AllWithinConcat(t: string, a: seq<Lexeme>, b: seq<Lexeme>, from: nat, mid: nat)
    requires AllWithin(t, a, from) && AllWithin(t, b, mid) && from <= mid
    ensures AllWithin(t, a + b, from)
  {
  }

  lemma LexSplits(prev: char, s: string, off: nat)
    requires s != ""
    ensures var n := TokenLen(prev, s);
            Lex(prev, s, off) == HeadLexeme(prev, s, off) + Lex(s[n - 1], s[n..], off + n)
  {
    hide TokenLen, HeadLexeme;
  }

  lemma NoneWithin(t: string, from: nat)
    ensures AllWithin(t, [], from)
  {
  }

  lemma LexNothing(prev: char, off: nat)
    ensures Lex(prev, "", off) == []
  {
  }

  lemma HeadReads(prev: char, s: string, off: nat, l: Lexeme)
    requires l in HeadLexeme(prev, s, off)
    ensures s != "" && s[0] == '"' && l.open == off && l.body == ReadBody(s[1..], off + 1)
  {
    hide ReadBody;
  }

  lemma HeadWithin(prev: char, t: string, p: nat)
    requires p < |t|
    ensures AllWithin(t, HeadLexeme(prev, t[p..], p), p)
  {
    hide ReadBody, Within;
    Tail(t, p, 1);
    ReadBodyWithin(t, p + 1);
  }

  lemma {:induction false} LexWithin(prev: char, t: string, p: nat)
    requires p <= |t|
    ensures AllWithin(t, Lex(prev, t[p..], p), p)
    decreases |t| - p
  {
    hide TokenLen, ReadBody, Within, HeadLexeme, AllWithin;
    var s := t[p..];
    if s == "" {
      LexNothing(prev, p);
      NoneWithin(t, p);
    } else {
      var n := LexStep(prev, t, p);
      hide Lex;
      LexWithin(t[p + n - 1], t, p + n);
      HeadWithin(prev, t, p);
      AllWithinConcat(t, HeadLexeme(prev, s, p), Lex(t[p + n - 1], t[p + n..], p + n), p, p + n);
    }
  }

  /** The token at an offset of the text, and what is behind it. */
  lemma LexStep(prev: char, t: string, p: nat) returns (n: nat)
    requires p < |t|
    ensures 0 < n && p + n <= |t|
    ensures Lex(prev, t[p..], p) == HeadLexeme(prev, t[p..], p) + Lex(t[p + n - 1], t[p + n..], p + n)
  {
    hide TokenLen, HeadLexeme;
    var s := t[p..];
    n := TokenLen(prev, s);
    LexSplits(prev, s, p);
    hide Lex;
    Tail(t, p, n);
    assert s[n - 1] == t[p + n - 1];
  }

  function Yields(t: string, ls: seq<Lexeme>): seq<Literal>
    requires AllWithin(t, ls, 0)
  {
    seq(|ls|, k requires 0 <= k < |ls| => YieldOf(t, ls[k]))
  }

  ghost predicate IncreasingFrom(at: seq<nat>, from: nat) {
    (forall k :: 0 <= k < |at| ==> from <= at[k]) && forall j, k :: 0 <= j < k < |at| ==> at[j] < at[k]
  }

  lemma Increases(front: seq<nat>, at: seq<nat>, from: nat, mid: nat)
    requires IncreasingFrom(front, from) && IncreasingFrom(at, mid) && from <= mid
    requires forall k :: 0 <= k < |front| ==> front[k] < mid
    ensures IncreasingFrom(front + at, from)
  {
  }

  lemma FewIncrease(off: nat)
    ensures IncreasingFrom([], off) && IncreasingFrom([off], off) && IncreasingFrom([off, off + 1], off)
  {
  }

  /** Body offsets are strictly increasing: no character is yielded twice or out of order. */
  lemma {:induction false} OffsetsIncrease(s: string, off: nat)
    ensures IncreasingFrom(ReadBody(s, off).at, off)
    decreases |s|
  {
    hide ReadBody, Blanks, IncreasingFrom, Behind;
    FewIncrease(off);
    if s == "" {
      EmptyOpens(off);
    } else if s[0] == '"' {
      QuoteOpens(s, off);
    } else if s[0] != '\\' {
      PlainOpens(s, off);
      OffsetsIncrease(s[1..], off + 1);
      BehindIncreases(1, [s[0]], [off], off, ReadBody(s[1..], off + 1));
    } else if |s| == 1 {
      LoneOpens(s, off);
    } else if s[1] == '\n' {
      var k := 2 + Blanks(s[2..]);
      ContinuationOpens(s, off);
      OffsetsIncrease(s[k..], off + k);
      BehindIncreases(k, "", [], off, ReadBody(s[k..], off + k));
    } else {
      EscapeOpens(s, off);
      OffsetsIncrease(s[2..], off + 2);
      BehindIncreases(2, s[..2], [off, off + 1], off, ReadBody(s[2..], off + 2));
    }
  }

  lemma BehindIncreases(k: nat, text: string, at: seq<nat>, off: nat, r: Body)
    requires IncreasingFrom(at, off) && (forall j :: 0 <= j < |at| ==> at[j] < off + k) && IncreasingFrom(r.at, off + k)
    ensures IncreasingFrom(Behind(k, text, at, r).at, off)
  {
    Increases(at, r.at, off, off + k);
  }

  // ---- where literals open ----

  /** The character in front of offset `k` of `s`, `prev` standing in front of `s`. */
  function Before(prev: char, s: string, k: nat): char
    requires k <= |s|
  {
    if k == 0 then prev else s[k - 1]
  }

  /** A quote stands at offset `o`, and no word character in front of it. */
  predicate OpenedAt(prev: char, s: string, o: int) {
    0 <= o < |s| && s[o] == '"' && !IsWord(Before(prev, s, o))
  }

  lemma {:induction false} LexOpens(prev: char, s: string, off: nat, l: Lexeme)
    requires l in Lex(prev, s, off)
    ensures OpenedAt(prev, s, l.open - off)
    decreases |s|
  {
    hide TokenLen, Lex, HeadLexeme, OpenedAt;
    LexNotEmpty(prev, off, l);
    LexSplits(prev, s, off);
    var n := TokenLen(prev, s);
    if l in HeadLexeme(prev, s, off) {
      OpensHere(prev, s, off, l);
    } else {
      LexOpens(s[n - 1], s[n..], off + n, l);
      OpensLater(prev, s, n, l.open - off - n);
    }
  }

  lemma LexNotEmpty(prev: char, off: nat, l: Lexeme)
    ensures l !in Lex(prev, "", off)
  {
  }

  lemma OpensHere(prev: char, s: string, off: nat, l: Lexeme)
    requires l in HeadLexeme(prev, s, off)
    ensures l.open == off && OpenedAt(prev, s, 0)
  {
    hide ReadBody, IsWord;
  }

  lemma OpensLater(prev: char, s: string, n: nat, k: int)
    requires 0 < n <= |s| && OpenedAt(s[n - 1], s[n..], k)
    ensures OpenedAt(prev, s, n + k)
  {
    hide IsWord;
  }

  /** Every literal opens at a quote that no letter, digit or underscore stands in front of; so the
      quote of a byte string opens none. */
  lemma LiteralOpens(t: string, l: Lexeme)
    requires l in Lexemes(t)
    ensures l.open < |t| && t[l.open] == '"'
    ensures l.open > 0 ==> var c := t[l.open - 1]; !Letter(c) && c !in DIGITS && c != '_'
  {
    hide Lex;
    LexOpens(' ', t, 0, l);
    WordSays(Before(' ', t, l.open));
  }

  /** `b"x"` holds no literal. */
  lemma ByteStringSkipped()
    ensures Lexemes("b\"x\"") == []
  {
    var t := "b\"x\"";
    LetterIs(t[0]);
    LetterIs(t[2]);
    hide Lex, Letter;
    forall l ensures l !in Lexemes(t) {
      if l in Lexemes(t) {
        LiteralOpens(t, l);
      }
    }
    SomethingInIt(Lexemes(t));
  }

  lemma SomethingInIt(ls: seq<Lexeme>)
    ensures ls != [] ==> exists l :: l in ls
  {
    if ls != [] {
      assert ls[0] in ls;
    }
  }
}
