/** The reader itself: one index walked over the whole file, with a running line
    counter (scripts/check-message-whitespace.py, `iter_literals`). */
module LiteralScan {
  import opened Common
  import opened RustSource
  import opened LiteralLexer

  /** The character before offset `i`; no word character at the start of the file. */
  function PrevOf(t: string, i: nat): char
    requires i <= |t|
  {
    if i == 0 then ' ' else t[i - 1]
  }

  /** Text between two offsets moves the line by the newlines it holds. */
  lemma LineAdvances(t: string, i: nat, j: nat)
    requires i <= j <= |t|
    ensures LineOf(t, j) == LineOf(t, i) + Newlines(t[i..j])
  {
    assert t[..j] == t[..i] + t[i..j];
    NewlinesConcat(t[..i], t[i..j]);
  }

  lemma LineStep(t: string, i: nat)
    requires i < |t|
    ensures LineOf(t, i + 1) == LineOf(t, i) + if t[i] == '\n' then 1 else 0
  {
    LineAdvances(t, i, i + 1);
    assert t[i..i + 1] == [t[i]];
    assert Newlines([t[i]]) == if t[i] == '\n' then 1 else 0;
  }

  lemma {:induction false} LineFlat(t: string, i: nat, j: nat)
    requires i <= j <= |t| && forall k :: i <= k < j ==> t[k] != '\n'
    ensures LineOf(t, j) == LineOf(t, i)
    decreases j - i
  {
    if i < j {
      LineStep(t, i);
      LineFlat(t, i + 1, j);
    }
  }

  /** `line` lies `lead` lines on; the literals still ahead complete those already yielded. */
  ghost predicate Ahead(t: string, i: nat, line: nat, done: seq<Lexeme>) {
    i <= |t| && line == LineOf(t, i) && Lexemes(t) == done + Lex(PrevOf(t, i), t[i..], i)
  }

  /** A token is passed: its literal, if any, joins those done. */
  lemma PassToken(t: string, i: nat, line: nat, done: seq<Lexeme>)
    requires i < |t| && Ahead(t, i, line, done)
    ensures var n := TokenLen(PrevOf(t, i), t[i..]);
            Ahead(t, i + n, LineOf(t, i + n), done + HeadLexeme(PrevOf(t, i), t[i..], i))
  {
    hide TokenLen, HeadLexeme, Lex;
    var p, s := PrevOf(t, i), t[i..];
    var n := TokenLen(p, s);
    LexSplits(p, s, i);
    Tail(t, i, n);
    assert s[n - 1] == t[i + n - 1];
    Assoc(done, HeadLexeme(p, s, i), Lex(s[n - 1], s[n..], i + n));
  }

  /** Reading on from a body offset: what is ahead of it and how it completes what was read. */
  ghost predicate Reading(t: string, start: nat, i: nat, text: string, at: seq<nat>) {
    start <= i <= |t| &&
    var whole, rest := ReadBody(t[start..], start), ReadBody(t[i..], i);
    whole.len == i - start + rest.len && whole.text == text + rest.text &&
    whole.at == at + rest.at && whole.end == rest.end
  }

  lemma ReadOn(t: string, start: nat, i: nat, text: string, at: seq<nat>, len: nat, more: string, moreAt: seq<nat>)
    requires Reading(t, start, i, text, at) && i + len <= |t|
    requires ReadBody(t[i..], i) == Behind(len, more, moreAt, ReadBody(t[i + len..], i + len))
    ensures Reading(t, start, i + len, text + more, at + moreAt)
  {
    hide ReadBody;
    var rest := ReadBody(t[i + len..], i + len);
    Assoc(text, more, rest.text);
    Assoc(at, moreAt, rest.at);
  }

  // One turn of the body loop, read off the specification.

  lemma BodyCloses(t: string, i: nat)
    requires i < |t| && t[i] == '"'
    ensures ReadBody(t[i..], i) == Body(1, "", [], Closed)
  {
    QuoteOpens(t[i..], i);
    hide ReadBody;
  }

  lemma BodyPlain(t: string, i: nat)
    requires i < |t| && t[i] != '"' && t[i] != '\\'
    ensures ReadBody(t[i..], i) == Behind(1, [t[i]], [i], ReadBody(t[i + 1..], i + 1))
  {
    PlainOpens(t[i..], i);
    hide ReadBody, Behind;
    Tail(t, i, 1);
  }

  lemma BodyDangles(t: string, i: nat)
    requires i + 1 == |t| && t[i] == '\\'
    ensures ReadBody(t[i..], i) == Body(1, "\\", [i], Dangling)
  {
    LoneOpens(t[i..], i);
    hide ReadBody;
  }

  lemma BodyContinues(t: string, i: nat, n: nat)
    requires i + 1 < |t| && t[i] == '\\' && t[i + 1] == '\n' && n == 2 + Blanks(t[i + 2..])
    ensures i + n <= |t| && ReadBody(t[i..], i) == Behind(n, "", [], ReadBody(t[i + n..], i + n))
  {
    hide ReadBody, Behind, Blanks;
    Tail(t, i, 2);
    Tail(t, i, n);
    ContinuationOpens(t[i..], i);
  }

  lemma BodyEscapes(t: string, i: nat)
    requires i + 1 < |t| && t[i] == '\\' && t[i + 1] != '\n'
    ensures ReadBody(t[i..], i) == Behind(2, t[i..i + 2], [i, i + 1], ReadBody(t[i + 2..], i + 2))
  {
    EscapeOpens(t[i..], i);
    hide ReadBody, Behind;
    Tail(t, i, 2);
    TwoAt(t, i);
  }

  lemma TwoAt(t: string, i: nat)
    requires i + 2 <= |t|
    ensures t[i..][..2] == t[i..i + 2]
  {
  }

  /** A character that is no quote and no backslash joins the body. */
  lemma TakeOne(t: string, start: nat, i: nat, text: string, at: seq<nat>, lines: seq<nat>)
    requires i < |t| && t[i] != '"' && t[i] != '\\'
    requires Reading(t, start, i, text, at) && Gathered(t, at, lines, false)
    ensures Reading(t, start, i + 1, text + [t[i]], at + [i]) && Gathered(t, at + [i], lines + [LineOf(t, i)], false)
  {
    hide Reading, Gathered, LineOf, ReadBody, Behind;
    BodyPlain(t, i);
    ReadOn(t, start, i, text, at, 1, [t[i]], [i]);
    Gather(t, at, lines, [i], LineOf(t, i));
    assert seq(1, _ => LineOf(t, i)) == [LineOf(t, i)];
  }

  /** An escape joins the body as it is spelled. */
  lemma TakeTwo(t: string, start: nat, i: nat, text: string, at: seq<nat>, lines: seq<nat>)
    requires i + 1 < |t| && t[i] == '\\' && t[i + 1] != '\n'
    requires Reading(t, start, i, text, at) && Gathered(t, at, lines, false)
    ensures Reading(t, start, i + 2, text + t[i..i + 2], at + [i, i + 1])
    ensures Gathered(t, at + [i, i + 1], lines + [LineOf(t, i), LineOf(t, i)], false)
  {
    hide Reading, Gathered, LineOf, ReadBody, Behind;
    BodyEscapes(t, i);
    LineStep(t, i);
    ReadOn(t, start, i, text, at, 2, t[i..i + 2], [i, i + 1]);
    Gather(t, at, lines, [i, i + 1], LineOf(t, i));
    assert seq(2, _ => LineOf(t, i)) == [LineOf(t, i), LineOf(t, i)];
  }

  /** A continuation is passed over. */
  lemma PassContinuation(t: string, start: nat, i: nat, k: nat, text: string, at: seq<nat>)
    requires i + 1 < |t| && t[i] == '\\' && t[i + 1] == '\n' && k == i + 2 + Blanks(t[i + 2..])
    requires Reading(t, start, i, text, at)
    ensures k <= |t| && Reading(t, start, k, text, at)
  {
    hide Reading, ReadBody, Behind, Blanks;
    BodyContinues(t, i, k - i);
    ReadOn(t, start, i, text, at, k - i, "", []);
    assert text + "" == text && at + [] == at;
  }

  lemma BlanksTurn(t: string, i: nat)
    requires i < |t| && IsBlank(t[i])
    ensures Blanks(t[i..]) == 1 + Blanks(t[i + 1..])
  {
    Tail(t, i, 1);
  }

  lemma BlanksEnd(t: string, i: nat)
    requires i <= |t| && (i < |t| ==> !IsBlank(t[i]))
    ensures Blanks(t[i..]) == 0
  {
  }

  lemma BodyEnds(off: nat)
    ensures ReadBody("", off) == Body(0, "", [], Unclosed)
  {
  }

  lemma GatheredNothing(t: string)
    ensures Gathered(t, [], [], false)
  {
  }

  /** The lines gathered for a body: one per character, and one more after a lone backslash. */
  ghost predicate Gathered(t: string, at: seq<nat>, lines: seq<nat>, dangling: bool) {
    (forall k :: 0 <= k < |at| ==> at[k] < |t|) &&
    (dangling ==> at != []) &&
    lines == LinesAt(t, at) + if dangling then [LineOf(t, at[|at| - 1])] else []
  }

  lemma Gather(t: string, at: seq<nat>, lines: seq<nat>, more: seq<nat>, line: nat)
    requires Gathered(t, at, lines, false)
    requires forall k :: 0 <= k < |more| ==> more[k] < |t| && LineOf(t, more[k]) == line
    ensures Gathered(t, at + more, lines + seq(|more|, _ => line), false)
  {
    hide LineOf;
  }

  lemma GatherDangling(t: string, at: seq<nat>, lines: seq<nat>, p: nat)
    requires Gathered(t, at, lines, false) && p < |t|
    ensures Gathered(t, at + [p], lines + [LineOf(t, p), LineOf(t, p)], true)
  {
    hide LineOf;
  }

  lemma Finish(t: string, start: nat, whole: Body, lines: seq<nat>)
    requires 0 < start <= |t| && Within(t, whole)
    requires Gathered(t, whole.at, lines, whole.end.Dangling?)
    ensures var first := LineOf(t, start - 1);
            YieldOf(t, Lexeme(start - 1, whole)) ==
            Literal("\"" + whole.text + "\"", [first] + lines + [if lines == [] then first else lines[|lines| - 1]])
  {
    hide LineOf;
  }

  /** The body has been read up to the end of the literal or of the file. */
  lemma ReadingEnds(t: string, start: nat, i: nat, text: string, at: seq<nat>, len: nat, end: End)
    requires Reading(t, start, i, text, at) && ReadBody(t[i..], i) == Body(len, "", [], end)
    ensures ReadBody(t[start..], start) == Body(i - start + len, text, at, end)
  {
    hide ReadBody;
  }

  lemma ReadingStarts(t: string, start: nat)
    requires start <= |t|
    ensures Reading(t, start, start, "", [])
  {
    hide ReadBody;
  }

  lemma ReadingDangles(t: string, start: nat, i: nat, text: string, at: seq<nat>)
    requires Reading(t, start, i, text, at) && ReadBody(t[i..], i) == Body(1, "\\", [i], Dangling)
    ensures ReadBody(t[start..], start) == Body(i - start + 1, text + "\\", at + [i], Dangling)
  {
    hide ReadBody;
  }

  /** The inner loop: read one literal from just behind its opening quote. */
  method ReadLiteral(t: string, start: nat, startLine: nat)
    returns (i: nat, line: nat, text: string, lines: seq<nat>)
    requires 0 < start <= |t| && startLine == LineOf(t, start - 1) == LineOf(t, start)
    ensures var l := Lexeme(start - 1, ReadBody(t[start..], start));
            Within(t, l.body) && Min(i, |t|) == start + l.body.len && line == LineOf(t, Min(i, |t|)) &&
            Literal(text, lines) == YieldOf(t, l)
  {
    hide ReadBody, Blanks, LineOf, Reading, Within, YieldOf, Gathered, Behind;
    var n := |t|;
    i := start;
    line := startLine;
    var bodyChars, bodyLines := "", [];
    ghost var at: seq<nat> := [];
    ghost var whole := ReadBody(t[start..], start);
    ReadBodyWithin(t, start);
    ReadingStarts(t, start);
    GatheredNothing(t);
    ghost var closed := false;
    while i < n
      invariant start <= i <= n + 1 && line == LineOf(t, Min(i, n))
      invariant Gathered(t, at, bodyLines, i > n) && !closed
      invariant i <= n ==> Reading(t, start, i, bodyChars, at)
      invariant i > n ==> whole == Body(n - start, bodyChars, at, Dangling)
      decreases n - i
    {
      var d := t[i];
      LineStep(t, i);
      if d == '"' {
        BodyCloses(t, i);
        ReadingEnds(t, start, i, bodyChars, at, 1, Closed);
        closed := true;
        i := i + 1;
        break;
      }
      if d == '\\' {
        if i + 1 < n && t[i + 1] == '\n' {
          ghost var from := i;
          LineStep(t, i + 1);
          line := line + 1;
          i := i + 2;
          while i < n && IsBlank(t[i])
            invariant from + 2 <= i <= n && line == LineOf(t, i)
            invariant Blanks(t[from + 2..]) == i - (from + 2) + Blanks(t[i..])
          {
            BlanksTurn(t, i);
            LineStep(t, i);
            i := i + 1;
          }
          BlanksEnd(t, i);
          PassContinuation(t, start, from, i, bodyChars, at);
          continue;
        }
        if i + 1 == n {
          BodyDangles(t, i);
          ReadingDangles(t, start, i, bodyChars, at);
          GatherDangling(t, at, bodyLines, i);
          bodyChars := bodyChars + "\\";
          at := at + [i];
        } else {
          LineStep(t, i + 1);
          TakeTwo(t, start, i, bodyChars, at, bodyLines);
          bodyChars := bodyChars + t[i..i + 2];
          at := at + [i, i + 1];
        }
        bodyLines := bodyLines + [line, line];
        i := i + 2;
        continue;
      }
      TakeOne(t, start, i, bodyChars, at, bodyLines);
      bodyChars := bodyChars + [d];
      bodyLines := bodyLines + [line];
      at := at + [i];
      if d == '\n' {
        line := line + 1;
      }
      i := i + 1;
    }
    if i == n && !closed {
      BodyEnds(n);
      assert t[n..] == "";
      ReadingEnds(t, start, n, bodyChars, at, 0, Unclosed);
    }
    Finish(t, start, whole, bodyLines);
    text := "\"" + bodyChars + "\"";
    lines := [startLine] + bodyLines + [if bodyLines == [] then startLine else bodyLines[|bodyLines| - 1]];
  }

  /** Nested block comment: returns with the line moved past it. */
  method SkipBlock(t: string, s: nat, startLine: nat) returns (i: nat, line: nat)
    requires s < |t| && "/*" <= t[s..] && startLine == LineOf(t, s)
    ensures i == s + 2 + BlockLen(t[s..][2..], 1) && i <= |t| && line == LineOf(t, i)
  {
    hide BlockLen, LineOf, Newlines;
    assert t[s] == '/' && t[s + 1] == '*';
    Tail(t, s, 2);
    var depth;
    depth, i, line := 1, s + 2, startLine;
    LineStep(t, s);
    LineStep(t, s + 1);
    while i < |t| && depth > 0
      invariant s + 2 <= i <= |t| && depth >= 0 && line == LineOf(t, i)
      invariant BlockLen(t[s + 2..], 1) == i - (s + 2) + if depth == 0 then 0 else BlockLen(t[i..], depth)
      decreases |t| - i
    {
      BlockTurn(t, i, depth);
      LineStep(t, i);
      if t[i] == '/' && i + 1 < |t| && t[i + 1] == '*' {
        LineStep(t, i + 1);
        depth := depth + 1;
        i := i + 2;
      } else if t[i] == '*' && i + 1 < |t| && t[i + 1] == '/' {
        LineStep(t, i + 1);
        depth := depth - 1;
        i := i + 2;
      } else {
        if t[i] == '\n' {
          line := line + 1;
        }
        i := i + 1;
      }
    }
  }

  /** Line comment: up to its newline, or to the end of the file. */
  method SkipLine(t: string, s: nat) returns (i: nat)
    requires s < |t| && "//" <= t[s..]
    ensures i == s + LineLen(t[s..]) && LineOf(t, i) == LineOf(t, s)
  {
    hide LineOf;
    var k := LineLen(t[s..]);
    i := s + k;
    assert forall j :: s <= j < i ==> t[s..][j - s] == t[j];
    LineFlat(t, s, i);
  }

  // What `TokenLen` and `HeadLexeme` say in each branch of the outer loop.

  lemma TokenNewline(prev: char, s: string)
    requires s != "" && s[0] == '\n'
    ensures TokenLen(prev, s) == 1 && !OpensLiteral(prev, s)
  {
  }

  lemma TokenLine(prev: char, s: string)
    requires "//" <= s
    ensures TokenLen(prev, s) == LineLen(s) && !OpensLiteral(prev, s)
  {
  }

  lemma TokenBlock(prev: char, s: string)
    requires "/*" <= s
    ensures TokenLen(prev, s) == 2 + BlockLen(s[2..], 1) && !OpensLiteral(prev, s)
  {
    hide BlockLen;
    assert s[1] == '*';
  }

  lemma TokenTick(prev: char, s: string)
    requires s != "" && s[0] == '\''
    ensures TokenLen(prev, s) == (if CharLitLen(s) > 0 then CharLitLen(s) else 1) && !OpensLiteral(prev, s)
  {
  }

  lemma TokenRaw(prev: char, s: string)
    requires RawOpens(s) && !IsWord(prev)
    ensures TokenLen(prev, s) == RawLen(s) && !OpensLiteral(prev, s)
  {
    hide RawLen, RawMark;
  }

  lemma TokenLiteral(prev: char, s: string)
    requires OpensLiteral(prev, s)
    ensures TokenLen(prev, s) == 1 + ReadBody(s[1..], 0).len
  {
  }

  lemma TokenPlain(prev: char, s: string)
    requires s != "" && s[0] != '\n' && s[0] != '\'' && !("//" <= s) && !("/*" <= s)
    requires !(RawOpens(s) && !IsWord(prev)) && !OpensLiteral(prev, s)
    ensures TokenLen(prev, s) == 1
  {
    hide RawMark;
  }

  /** How far a body reaches does not depend on where it stands. */
  lemma {:induction false} ReadBodyShift(s: string, a: nat, b: nat)
    ensures ReadBody(s, a).len == ReadBody(s, b).len
    ensures ReadBody(s, a).text == ReadBody(s, b).text
    ensures ReadBody(s, a).end == ReadBody(s, b).end
    decreases |s|
  {
    if s == "" {
      BodyEnds(a);
      BodyEnds(b);
    } else {
      BodyOpens(s, a);
      BodyOpens(s, b);
      hide ReadBody, Blanks;
      if s[0] != '"' && s[0] != '\\' {
        ReadBodyShift(s[1..], a + 1, b + 1);
      } else if s[0] == '\\' && |s| > 1 && s[1] == '\n' {
        var k := 2 + Blanks(s[2..]);
        ReadBodyShift(s[k..], a + k, b + k);
      } else if s[0] == '\\' && |s| > 1 {
        ReadBodyShift(s[2..], a + 2, b + 2);
      }
    }
  }

  lemma YieldsConcat(t: string, a: seq<Lexeme>, b: seq<Lexeme>)
    requires AllWithin(t, a, 0) && AllWithin(t, b, 0)
    ensures AllWithin(t, a + b, 0) && Yields(t, a + b) == Yields(t, a) + Yields(t, b)
  {
  }

  /** The whole walk: exactly the literals of the specification, in order, each
      with the line of every character. */
  method IterLiterals(t: string) returns (out: seq<Literal>)
    ensures AllWithin(t, Lexemes(t), 0) && out == Yields(t, Lexemes(t))
  {
    hide TokenLen, HeadLexeme, Lex, YieldOf, RawLen, BlockLen, LineOf, ReadBody, LineLen;
    hide Ahead, Yields, AllWithin, CharLitLen, RawMark, RawOpens, Newlines, Within;
    LexWithin(' ', t, 0);
    assert t[0..] == t;
    var n := |t|;
    var i: nat, line: nat := 0, 1;
    out := [];
    ghost var done: seq<Lexeme> := [];
    AheadAtStart(t);
    while i < n
      invariant 0 <= i
      invariant Ahead(t, Min(i, n), line, done) && line == LineOf(t, Min(i, n))
      invariant AllWithin(t, done, 0) && out == Yields(t, done)
      decreases n - i
    {
      var c := t[i];
      ghost var p, s := PrevOf(t, i), t[i..];
      PassToken(t, i, line, done);
      LineStep(t, i);
      if c == '\n' {
        TokenNewline(p, s);
        NoLexeme(p, s, i, done);
        line := line + 1;
        i := i + 1;
        continue;
      }
      if c == '/' && i + 1 < n && t[i + 1] == '/' {
        TokenLine(p, s);
        NoLexeme(p, s, i, done);
        i := SkipLine(t, i);
        continue;
      }
      if c == '/' && i + 1 < n && t[i + 1] == '*' {
        TokenBlock(p, s);
        NoLexeme(p, s, i, done);
        i, line := SkipBlock(t, i, line);
        continue;
      }
      if c == '\'' {
        TokenTick(p, s);
        NoLexeme(p, s, i, done);
        TickFlat(t, i);
        i := if CharLitLen(t[i..]) > 0 then i + CharLitLen(t[i..]) else i + 1;
        continue;
      }
      if RawOpens(t[i..]) && (i == 0 || !IsWord(t[i - 1])) {
        TokenRaw(p, s);
        NoLexeme(p, s, i, done);
        var j := i + RawLen(t[i..]);
        LineAdvances(t, i, j);
        line := line + Newlines(t[i..j]);
        i := j;
        continue;
      }
      if c == '"' && !(i > 0 && IsWord(t[i - 1])) {
        TokenLiteral(p, s);
        Tail(t, i, 1);
        ReadBodyShift(s[1..], 0, i + 1);
        var text, lines;
        ghost var start := i;
        i, line, text, lines := ReadLiteral(t, i + 1, line);
        out := out + [Literal(text, lines)];
        OneLexeme(t, p, start);
        YieldsConcat(t, done, HeadLexeme(p, s, start));
        done := done + HeadLexeme(p, s, start);
        continue;
      }
      TokenPlain(p, s);
      NoLexeme(p, s, i, done);
      i := i + 1;
    }
    AheadAtEnd(t, line, done);
  }

  lemma AheadAtStart(t: string)
    ensures Ahead(t, 0, 1, []) && LineOf(t, 0) == 1
    ensures AllWithin(t, [], 0) && Yields(t, []) == []
  {
    assert t[0..] == t;
    assert Newlines(t[..0]) == 0;
  }

  lemma AheadAtEnd(t: string, line: nat, done: seq<Lexeme>)
    requires Ahead(t, |t|, line, done)
    ensures Lexemes(t) == done
  {
    assert t[|t|..] == "";
  }

  lemma NoLexeme(prev: char, s: string, off: nat, done: seq<Lexeme>)
    requires !OpensLiteral(prev, s)
    ensures done + HeadLexeme(prev, s, off) == done
  {
  }

  lemma OneLexeme(t: string, prev: char, i: nat)
    requires i < |t| && OpensLiteral(prev, t[i..]) && Within(t, ReadBody(t[i + 1..], i + 1))
    ensures var l := Lexeme(i, ReadBody(t[i + 1..], i + 1));
            HeadLexeme(prev, t[i..], i) == [l] && AllWithin(t, [l], 0) && Yields(t, [l]) == [YieldOf(t, l)]
  {
    hide ReadBody, Within, YieldOf;
    Tail(t, i, 1);
  }

  lemma TickFlat(t: string, i: nat)
    requires i < |t| && t[i] == '\''
    ensures LineOf(t, i + 1) == LineOf(t, i)
    ensures LineOf(t, i + CharLitLen(t[i..])) == LineOf(t, i)
  {
    hide LineOf;
    LineStep(t, i);
    var k := CharLitLen(t[i..]);
    assert forall j :: i <= j < i + k ==> t[i..][j - i] == t[j];
    LineFlat(t, i, i + k);
  }
}
