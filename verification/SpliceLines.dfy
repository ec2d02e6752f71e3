/** Where a spliced continuation puts the characters and lines of every literal
    (scripts/check-message-whitespace.py, `iter_literals`). */
module SpliceLines {
  import opened Common
  import opened RustSource
  import opened LiteralLexer
  import opened LiteralScan
  import opened LiteralSplice
  import opened LiteralLines

  // ---- bodies at other offsets ----

  function AddAll(at: seq<nat>, d: nat): (r: seq<nat>)
    ensures |r| == |at|
  {
    seq(|at|, k requires 0 <= k < |at| => at[k] + d)
  }

  function Later(b: Body, d: nat): Body {
    Body(b.len, b.text, AddAll(b.at, d), b.end)
  }

  lemma LaterBehind(k: nat, text: string, at: seq<nat>, r: Body, d: nat)
    ensures Later(Behind(k, text, at, r), d) == Behind(k, text, AddAll(at, d), Later(r, d))
  {
    assert AddAll(at + r.at, d) == AddAll(at, d) + AddAll(r.at, d);
  }

  lemma FewLater(off: nat, d: nat)
    ensures AddAll([], d) == [] && AddAll([off], d) == [off + d] && AddAll([off, off + 1], d) == [off + d, off + d + 1]
  {
  }

  /** The same body read further on: every offset is as much greater. */
  lemma {:induction false} BodyLater(s: string, off: nat, d: nat)
    ensures ReadBody(s, off + d) == Later(ReadBody(s, off), d)
    decreases |s|
  {
    hide ReadBody, Blanks, Behind, AddAll;
    FewLater(off, d);
    if s == "" {
      BodyEnds(off);
      BodyEnds(off + d);
    } else if s[0] == '"' {
      QuoteOpens(s, off);
      QuoteOpens(s, off + d);
    } else if s[0] != '\\' {
      PlainOpens(s, off);
      PlainOpens(s, off + d);
      BodyLater(s[1..], off + 1, d);
      LaterBehind(1, [s[0]], [off], ReadBody(s[1..], off + 1), d);
    } else if |s| == 1 {
      LoneOpens(s, off);
      LoneOpens(s, off + d);
    } else if s[1] == '\n' {
      var k := 2 + Blanks(s[2..]);
      ContinuationOpens(s, off);
      ContinuationOpens(s, off + d);
      BodyLater(s[k..], off + k, d);
      LaterBehind(k, "", [], ReadBody(s[k..], off + k), d);
    } else {
      EscapeOpens(s, off);
      EscapeOpens(s, off + d);
      BodyLater(s[2..], off + 2, d);
      LaterBehind(2, s[..2], [off, off + 1], ReadBody(s[2..], off + 2), d);
    }
  }

  lemma BehindTwice(j: nat, t: string, a: seq<nat>, k: nat, u: string, b: seq<nat>, r: Body)
    ensures Behind(j, t, a, Behind(k, u, b, r)) == Behind(j + k, t + u, a + b, r)
  {
    Assoc(t, u, r.text);
    Assoc(a, b, r.at);
  }

  /** What an open body and its continuation come to. */
  ghost predicate Joined(y: string, v: string, off: nat) {
    var b := ReadBody(y, off);
    ReadBody(y + v, off) == Behind(|y|, b.text, b.at, ReadBody(v, off + |y|))
  }

  lemma JoinStep(y: string, v: string, off: nat, k: nat, text: string, at: seq<nat>)
    requires 0 < k <= |y| && Joined(y[k..], v, off + k)
    requires ReadBody(y, off) == Behind(k, text, at, ReadBody(y[k..], off + k))
    requires ReadBody(y + v, off) == Behind(k, text, at, ReadBody(y[k..] + v, off + k))
    ensures Joined(y, v, off)
  {
    hide ReadBody;
    var b := ReadBody(y[k..], off + k);
    BehindTwice(k, text, at, |y| - k, b.text, b.at, ReadBody(v, off + |y|));
  }

  /** What is behind the first token of an open body is open too. */
  lemma OpenBehind(y: string)
    requires OpenBody(y) && y != ""
    ensures y[0] != '"' && (y[0] != '\\' ==> OpenBody(y[1..]))
    ensures y[0] == '\\' ==> |y| > 1 && OpenBody(if y[1] == '\n' then y[2 + Blanks(y[2..])..] else y[2..])
  {
    hide Blanks, ReadBody;
    if y[0] == '"' {
      QuoteOpens(y, 0);
    } else if y[0] != '\\' {
      ReadsPlain(y);
    } else if |y| == 1 {
      LoneOpens(y, 0);
    } else if y[1] == '\n' {
      ReadsContinuation(y, 2 + Blanks(y[2..]));
    } else {
      ReadsEscape(y);
    }
  }

  lemma JoinPlain(y: string, v: string, off: nat)
    requires y != "" && y[0] != '"' && y[0] != '\\' && Joined(y[1..], v, off + 1)
    ensures Joined(y, v, off)
  {
    hide ReadBody, Joined, Behind;
    Drop(y, v, 1);
    PlainOpens(y, off);
    PlainOpens(y + v, off);
    JoinStep(y, v, off, 1, [y[0]], [off]);
  }

  lemma JoinEscape(y: string, v: string, off: nat)
    requires |y| > 1 && y[0] == '\\' && y[1] != '\n' && Joined(y[2..], v, off + 2)
    ensures Joined(y, v, off)
  {
    hide ReadBody, Joined, Behind;
    Drop(y, v, 2);
    EscapeOpens(y, off);
    EscapeOpens(y + v, off);
    JoinStep(y, v, off, 2, y[..2], [off, off + 1]);
  }

  lemma JoinContinuation(y: string, v: string, off: nat, k: nat)
    requires |y| > 1 && y[0] == '\\' && y[1] == '\n' && k == 2 + Blanks(y[2..]) && NoBlankAhead(v)
    requires Joined(y[k..], v, off + k)
    ensures Joined(y, v, off)
  {
    hide ReadBody, Joined, Behind, Blanks, NoBlankAhead;
    Drop(y, v, 2);
    Drop(y, v, k);
    BlanksStop(y[2..], v);
    ContinuationOpens(y, off);
    ContinuationOpens(y + v, off);
    JoinStep(y, v, off, k, "", []);
  }

  lemma {:induction false} OpenBodyJoins(y: string, v: string, off: nat)
    requires OpenBody(y) && NoBlankAhead(v)
    ensures Joined(y, v, off)
    decreases |y|
  {
    if y == "" {
      assert "" + v == v;
      BodyEnds(off);
    } else {
      OpenBehind(y);
      hide OpenBody, Blanks, Joined, NoBlankAhead;
      if y[0] != '\\' {
        OpenBodyJoins(y[1..], v, off + 1);
        JoinPlain(y, v, off);
      } else if y[1] == '\n' {
        var k := 2 + Blanks(y[2..]);
        OpenBodyJoins(y[k..], v, off + k);
        JoinContinuation(y, v, off, k);
      } else {
        OpenBodyJoins(y[2..], v, off + 2);
        JoinEscape(y, v, off);
      }
    }
  }

  /** A body that closes before a quote is the same whatever is behind that quote. */
  lemma {:induction false} BodyFixed(p: string, z: string, z': string, off: nat)
    requires ReadBody(p + ("\"" + z), off).len <= |p|
    ensures ReadBody(p + ("\"" + z'), off) == ReadBody(p + ("\"" + z), off)
    decreases |p|
  {
    hide ReadBody, Blanks;
    var q, q' := "\"" + z, "\"" + z';
    var s, s' := p + q, p + q';
    FixedHeads(p, z, z');
    if s[0] == '"' {
      QuoteOpens(s, off);
      QuoteOpens(s', off);
    } else if s[0] != '\\' {
      PlainOpens(s, off);
      PlainOpens(s', off);
      BodyFixed(p[1..], z, z', off + 1);
    } else if s[1] == '\n' {
      var k := 2 + Blanks(p[2..]);
      ContinuationOpens(s, off);
      ContinuationOpens(s', off);
      BlanksStop(p[2..], q);
      BlanksStop(p[2..], q');
      Drop(p, q, k);
      Drop(p, q', k);
      BodyFixed(p[k..], z, z', off + k);
    } else {
      EscapeOpens(s, off);
      EscapeOpens(s', off);
      if |p| > 1 {
        BodyFixed(p[2..], z, z', off + 2);
      }
    }
  }

  // ---- moved literals ----

  /** Where the character at `x` stands after `d` characters were inserted at `p`. */
  function Move(p: nat, d: nat, x: nat): nat {
    if x < p then x else x + d
  }

  ghost predicate Moved(l: Lexeme, m: Lexeme, p: nat, d: nat) {
    m.open == Move(p, d, l.open) && m.body.text == l.body.text && m.body.end == l.body.end &&
    |m.body.at| == |l.body.at| && forall k :: 0 <= k < |l.body.at| ==> m.body.at[k] == Move(p, d, l.body.at[k])
  }

  ghost predicate AllMoved(ls: seq<Lexeme>, ms: seq<Lexeme>, p: nat, d: nat) {
    |ms| == |ls| && forall k :: 0 <= k < |ls| ==> Moved(ls[k], ms[k], p, d)
  }

  lemma MovedConcat(a: seq<Lexeme>, b: seq<Lexeme>, a': seq<Lexeme>, b': seq<Lexeme>, p: nat, d: nat)
    requires AllMoved(a, a', p, d) && AllMoved(b, b', p, d)
    ensures AllMoved(a + b, a' + b', p, d)
  {
    hide Moved;
  }

  /** Offsets of a body are within it. */
  lemma BodySpan(s: string, off: nat)
    ensures var b := ReadBody(s, off); forall x :: x in b.at ==> off <= x < off + b.len
  {
    hide ReadBody;
    EveryCharacter(s, off);
  }

  /** A text further on: every literal is as much further on. */
  lemma {:induction false} LexLater(prev: char, s: string, off: nat, p: nat, d: nat)
    requires p <= off
    ensures AllMoved(Lex(prev, s, off), Lex(prev, s, off + d), p, d)
    decreases |s|
  {
    hide TokenLen, HeadLexeme;
    if s == "" {
      LexNothing(prev, off);
      LexNothing(prev, off + d);
    } else {
      LexSplits(prev, s, off);
      LexSplits(prev, s, off + d);
      hide Lex, AllMoved;
      var n := TokenLen(prev, s);
      LexLater(s[n - 1], s[n..], off + n, p, d);
      HeadLater(prev, s, off, p, d);
      MovedConcat(HeadLexeme(prev, s, off), Lex(s[n - 1], s[n..], off + n),
                  HeadLexeme(prev, s, off + d), Lex(s[n - 1], s[n..], off + n + d), p, d);
    }
  }

  lemma LaterMoves(open: nat, b: Body, p: nat, d: nat)
    requires p <= open && forall x :: x in b.at ==> p <= x
    ensures Moved(Lexeme(open, b), Lexeme(open + d, Later(b, d)), p, d)
  {
    assert forall k :: 0 <= k < |b.at| ==> b.at[k] in b.at;
  }

  lemma StaysMoves(l: Lexeme, p: nat, d: nat)
    requires l.open < p && forall x :: x in l.body.at ==> x < p
    ensures Moved(l, l, p, d)
  {
    assert forall k :: 0 <= k < |l.body.at| ==> l.body.at[k] in l.body.at;
  }

  lemma HeadLater(prev: char, s: string, off: nat, p: nat, d: nat)
    requires p <= off
    ensures AllMoved(HeadLexeme(prev, s, off), HeadLexeme(prev, s, off + d), p, d)
  {
    hide ReadBody;
    if OpensLiteral(prev, s) {
      BodyLater(s[1..], off + 1, d);
      BodySpan(s[1..], off + 1);
      LaterMoves(off, ReadBody(s[1..], off + 1), p, d);
    }
  }

  /** A literal that ends in front of the splice stays. */
  lemma HeadStays(prev: char, a: string, z: string, z': string, off: nat, p: nat, d: nat)
    requires a != "" && Alike(z, z') && TokenLen(prev, a + ("\"" + z)) <= |a| && off + |a| < p
    ensures AllMoved(HeadLexeme(prev, a + ("\"" + z), off), HeadLexeme(prev, a + ("\"" + z'), off), p, d)
  {
    var s, s' := a + ("\"" + z), a + ("\"" + z');
    assert s[0] == s'[0] == a[0];
    if OpensLiteral(prev, s) {
      TokenLiteral(prev, s);
      BodyShift(s[1..], off + 1);
      Drop(a, "\"" + z, 1);
      Drop(a, "\"" + z', 1);
      hide TokenLen, ReadBody;
      BodyFixed(a[1..], z, z', off + 1);
      BodySpan(s[1..], off + 1);
      StaysMoves(Lexeme(off, ReadBody(s[1..], off + 1)), p, d);
    }
  }

  // ---- the splice ----

  /** The text with a continuation in front of `v`. */
  function Cut(indent: string, v: string): string {
    "\\\n" + indent + v
  }

  lemma CutRead(indent: string, v: string, off: nat)
    requires (forall k :: 0 <= k < |indent| ==> IsBlank(indent[k])) && NoBlankAhead(v)
    ensures ReadBody(Cut(indent, v), off) == Behind(2 + |indent|, "", [], ReadBody(v, off + 2 + |indent|))
  {
    var w := Cut(indent, v);
    hide ReadBody, Behind, Cut, Blanks, IsBlank, NoBlankAhead;
    CutParts(indent, v);
    ContinuationOpens(w, off);
  }

  lemma CutParts(indent: string, v: string)
    requires (forall k :: 0 <= k < |indent| ==> IsBlank(indent[k])) && NoBlankAhead(v)
    ensures var w := Cut(indent, v);
            |w| > 1 && w[0] == '\\' && w[1] == '\n' && Blanks(w[2..]) == |indent| && w[2 + |indent|..] == v
  {
    hide Blanks;
    var w := Cut(indent, v);
    assert w[2..] == indent + v;
    assert forall k :: 0 <= k < |indent| ==> (indent + v)[k] == indent[k];
    BlanksAre(indent + v, |indent|);
    assert w[2 + |indent|..] == v;
  }

  /** The body of the literal that is cut: what is in front of the cut stays, what is behind it moves. */
  lemma BodyCut(y: string, indent: string, v: string, off: nat)
    requires OpenBody(y) && NoBlankAhead(v) && forall k :: 0 <= k < |indent| ==> IsBlank(indent[k])
    ensures var (d, b, c) := (2 + |indent|, ReadBody(y + v, off), ReadBody(y + Cut(indent, v), off));
            c.len == b.len + d && c.text == b.text && c.end == b.end && |c.at| == |b.at| &&
            forall k :: 0 <= k < |b.at| ==> c.at[k] == Move(off + |y|, d, b.at[k])
  {
    hide ReadBody, Cut;
    var d, front, o := 2 + |indent|, ReadBody(y, off), off + |y|;
    var r := ReadBody(v, o);
    CutParts(indent, v);
    OpenBodyJoins(y, v, off);
    OpenBodyJoins(y, Cut(indent, v), off);
    CutRead(indent, v, o);
    BodyLater(v, o, d);
    OpenBodySpan(y, off);
    BodySpan(v, o);
    CutMoves(|y|, off, front.text, front.at, r, d);
  }

  lemma OpenBodySpan(y: string, off: nat)
    requires OpenBody(y)
    ensures forall x :: x in ReadBody(y, off).at ==> off <= x < off + |y|
  {
    BodySpan(y, off);
    BodyShift(y, off);
  }

  lemma CutMoves(n: nat, off: nat, text: string, at: seq<nat>, r: Body, d: nat)
    requires forall x :: x in at ==> off <= x < off + n
    requires forall x :: x in r.at ==> off + n <= x
    ensures var (b, c) := (Behind(n, text, at, r), Behind(n, text, at, Behind(d, "", [], Later(r, d))));
            c.len == b.len + d && c.text == b.text && c.end == b.end && |c.at| == |b.at| &&
            forall k :: 0 <= k < |b.at| ==> c.at[k] == Move(off + n, d, b.at[k])
  {
    assert [] + Later(r, d).at == Later(r, d).at && "" + r.text == r.text;
    assert forall k :: 0 <= k < |at| ==> at[k] in at;
    assert forall k :: 0 <= k < |r.at| ==> r.at[k] in r.at;
  }

  // ---- the file ----

  /** A file cut in its first literal: that literal is cut, and the rest is further on. */
  lemma LiteralCut(prev: char, y: string, indent: string, v: string, off: nat)
    requires !IsWord(prev) && OpenBody(y) && NoBlankAhead(v) && forall k :: 0 <= k < |indent| ==> IsBlank(indent[k])
    ensures var p := off + 1 + |y|;
            AllMoved(Lex(prev, "\"" + (y + v), off), Lex(prev, "\"" + (y + Cut(indent, v)), off), p, 2 + |indent|)
  {
    hide ReadBody, Cut, OpenBody, NoBlankAhead, IsWord, Lex, AllMoved;
    var d, p, w := 2 + |indent|, off + 1 + |y|, Cut(indent, v);
    var b, c := ReadBody(y + v, off + 1), ReadBody(y + w, off + 1);
    BodyCut(y, indent, v, off + 1);
    BodyReaches(y, v, off + 1);
    OneLiteral(prev, y + v, off);
    OneLiteral(prev, y + w, off);
    CutEnds(indent, v);
    RestsMeet(y, v, w, b.len, d);
    var l, m := Lexeme(off, b), Lexeme(off, c);
    OneMoved(l, m, p, d);
    if v != "" {
      LexLater(Last(y + v, b.len), (y + v)[b.len..], off + 1 + b.len, p, d);
    } else {
      NothingLeft(off, p, d);
      assert (y + v)[b.len..] == "" && (y + w)[c.len..] == "";
    }
    MovedConcat([l], Rest(y + v, off), [m], Rest(y + w, off), p, d);
  }

  /** The character before offset `n` of a body, or its opening quote. */
  function Last(body: string, n: nat): char
    requires n <= |body|
  {
    if n == 0 then '"' else body[n - 1]
  }

  function Rest(body: string, off: nat): seq<Lexeme> {
    var n := ReadBody(body, off + 1).len;
    Lex(Last(body, n), body[n..], off + 1 + n)
  }

  lemma OneLiteral(prev: char, body: string, off: nat)
    requires !IsWord(prev)
    ensures Lex(prev, "\"" + body, off) == [Lexeme(off, ReadBody(body, off + 1))] + Rest(body, off)
  {
    hide ReadBody, TokenLen, IsWord, Last, HeadLexeme;
    BehindQuote(body, ReadBody(body, off + 1).len);
    LiteralHead(prev, body, off);
    LexSplits(prev, "\"" + body, off);
    hide Lex;
  }

  lemma LiteralHead(prev: char, body: string, off: nat)
    requires !IsWord(prev)
    ensures var b := ReadBody(body, off + 1);
            TokenLen(prev, "\"" + body) == b.len + 1 && HeadLexeme(prev, "\"" + body, off) == [Lexeme(off, b)]
  {
    hide ReadBody, TokenLen, IsWord;
    var s := "\"" + body;
    assert s[1..] == body;
    BodyShift(body, off + 1);
    TokenLiteral(prev, s);
  }

  lemma BehindQuote(body: string, n: nat)
    requires n <= |body|
    ensures var s := "\"" + body; s[1..] == body && s[n + 1..] == body[n..] && s[n] == Last(body, n)
  {
    assert ("\"" + body)[1..] == body;
    Tail("\"" + body, 1, n);
  }

  lemma OneMoved(l: Lexeme, m: Lexeme, p: nat, d: nat)
    requires m.open == l.open < p && m.body.text == l.body.text && m.body.end == l.body.end
    requires |m.body.at| == |l.body.at| && forall k :: 0 <= k < |l.body.at| ==> m.body.at[k] == Move(p, d, l.body.at[k])
    ensures AllMoved([l], [m], p, d)
  {
  }

  lemma NothingLeft(off: nat, p: nat, d: nat)
    ensures forall c: char, n: nat :: Lex(c, "", n) == []
    ensures AllMoved([], [], p, d)
  {
  }

  lemma BodyReaches(y: string, v: string, off: nat)
    requires OpenBody(y) && NoBlankAhead(v)
    ensures |y| <= ReadBody(y + v, off).len && (v != "" ==> |y| < ReadBody(y + v, off).len)
  {
    OpenBodyJoins(y, v, off);
    hide ReadBody, OpenBody;
    if v != "" {
      BodyNotEmpty(v, off + |y|);
    }
  }

  lemma BodyNotEmpty(v: string, off: nat)
    requires v != ""
    ensures ReadBody(v, off).len > 0
  {
  }

  lemma CutEnds(indent: string, v: string)
    ensures |Cut(indent, v)| == 2 + |indent| + |v| && Cut(indent, v)[2 + |indent|..] == v
  {
  }

  lemma RestsMeet(y: string, v: string, w: string, n: nat, d: nat)
    requires |w| == d + |v| && w[d..] == v && |y| <= n <= |y + v|
    ensures (y + w)[n + d..] == (y + v)[n..] && (n > |y| ==> (y + w)[n + d - 1] == (y + v)[n - 1])
  {
    Drop(y, v, |y|);
    Drop(y, w, |y|);
    assert (y + w)[|y|..] == w && (y + v)[|y|..] == v;
    Tail(y + w, |y|, n - |y| + d);
    Tail(w, d, n - |y|);
    Tail(y + v, |y|, n - |y|);
    assert n > |y| ==> (y + w)[n + d - 1] == w[n - |y| + d - 1] == w[d..][n - |y| - 1];
  }

  /** The same, with tokens in front of the literal. */
  lemma {:induction false} LexCut(prev: char, a: string, y: string, indent: string, v: string, off: nat, l: Lexeme)
    requires OpenBody(y) && NoBlankAhead(v) && forall k :: 0 <= k < |indent| ==> IsBlank(indent[k])
    requires l in Lex(prev, a + ("\"" + (y + v)), off) && l.open == off + |a|
    ensures AllMoved(Lex(prev, a + ("\"" + (y + v)), off), Lex(prev, a + ("\"" + (y + Cut(indent, v))), off),
                     off + |a| + 1 + |y|, 2 + |indent|)
    decreases |a|
  {
    hide TokenLen, ReadBody, HeadLexeme, Lex, OpenBody, Cut, AllMoved, NoBlankAhead;
    var z, z' := y + v, y + Cut(indent, v);
    var q, q' := "\"" + z, "\"" + z';
    var s, s' := a + q, a + q';
    LexSplits(prev, s, off);
    if l in HeadLexeme(prev, s, off) {
      HeadOpens(prev, s, off, l);
      assert s == q && s' == q';
      LiteralCut(prev, y, indent, v, off);
    } else {
      var n := TokenLen(prev, s);
      OpensInOrder(s[n - 1], s[n..], off + n, l);
      SameAhead(y, indent, v);
      TokenStable(prev, a, z, z');
      HeadStays(prev, a, z, z', off, off + |a| + 1 + |y|, 2 + |indent|);
      Drop(a, q, n);
      Drop(a, q', n);
      assert s[n - 1] == s'[n - 1] == a[n - 1];
      LexCut(a[n - 1], a[n..], y, indent, v, off + n, l);
      LexSplits(prev, s', off);
      MovedConcat(HeadLexeme(prev, s, off), Lex(s[n - 1], s[n..], off + n),
                  HeadLexeme(prev, s', off), Lex(s[n - 1], s'[n..], off + n),
                  off + |a| + 1 + |y|, 2 + |indent|);
    }
  }

  lemma SameAhead(y: string, indent: string, v: string)
    ensures Alike(y + v, y + Cut(indent, v))
  {
  }

  // ---- lines ----

  lemma BlanksHoldNoNewline(indent: string)
    requires forall k :: 0 <= k < |indent| ==> IsBlank(indent[k])
    ensures Newlines(indent) == 0
  {
    if indent != "" {
      BlanksHoldNoNewline(indent[1..]);
    }
  }

  /** The line at a moved offset: one more behind the splice. */
  lemma LineMoves(t: string, p: nat, indent: string, x: nat)
    requires p <= |t| && x <= |t| && forall k :: 0 <= k < |indent| ==> IsBlank(indent[k])
    ensures var (u, m) := (Spliced(t, p, indent), Move(p, 2 + |indent|, x));
            m <= |u| && LineOf(u, m) == LineOf(t, x) + if x < p then 0 else 1
  {
    var u, ins := Spliced(t, p, indent), "\\\n" + indent;
    if x < p {
      assert u[..x] == t[..x];
    } else {
      var back := t[p..x];
      assert t[..x] == t[..p] + back;
      assert u[..x + 2 + |indent|] == t[..p] + (ins + back);
      NewlinesConcat(t[..p], back);
      NewlinesConcat(t[..p], ins + back);
      NewlinesConcat(ins, back);
      NewlinesConcat("\\\n", indent);
      BlanksHoldNoNewline(indent);
      assert Newlines("\\\n") == 1 by {
        assert "\\\n"[1..] == "\n" && "\n"[1..] == "";
      }
    }
  }

  /** Text and lines of a literal after the splice: the same characters, each on its line or, behind
      the splice, on the next. */
  ghost predicate LinesMoved(l: Lexeme, y: Literal, z: Literal, p: nat) {
    z.text == y.text && |z.lines| == |y.lines| > |l.body.at| &&
    z.lines[0] == y.lines[0] + (if l.open < p then 0 else 1) &&
    forall k :: 0 <= k < |l.body.at| ==> z.lines[k + 1] == y.lines[k + 1] + if l.body.at[k] < p then 0 else 1
  }

  /** Both literals can be yielded, and the one has moved to the other. */
  ghost predicate MovedWithin(t: string, p: nat, indent: string, l: Lexeme, m: Lexeme) {
    p <= |t| && (forall k :: 0 <= k < |indent| ==> IsBlank(indent[k])) && Moved(l, m, p, 2 + |indent|) &&
    l.open < |t| && Within(t, l.body) && m.open < |Spliced(t, p, indent)| && Within(Spliced(t, p, indent), m.body)
  }

  lemma OneLineMoves(t: string, p: nat, indent: string, l: Lexeme, m: Lexeme, k: nat)
    requires MovedWithin(t, p, indent, l, m) && k < |l.body.at|
    ensures var (y, z) := (YieldOf(t, l), YieldOf(Spliced(t, p, indent), m));
            k + 1 < |y.lines| && k + 1 < |z.lines| &&
            z.lines[k + 1] == y.lines[k + 1] + if l.body.at[k] < p then 0 else 1
  {
    var u, x := Spliced(t, p, indent), l.body.at[k];
    WithinFits(t, l.body);
    YieldLines(t, l);
    YieldLines(u, m);
    LineMoves(t, p, indent, x);
    hide YieldOf, Spliced, LineOf, Within;
    assert m.body.at[k] == Move(p, 2 + |indent|, x);
  }

  lemma FirstLineMoves(t: string, p: nat, indent: string, l: Lexeme, m: Lexeme)
    requires MovedWithin(t, p, indent, l, m)
    ensures var (y, z) := (YieldOf(t, l), YieldOf(Spliced(t, p, indent), m));
            z.text == y.text && |z.lines| == |y.lines| > |l.body.at| &&
            z.lines[0] == y.lines[0] + if l.open < p then 0 else 1
  {
    var u := Spliced(t, p, indent);
    YieldLines(t, l);
    YieldLines(u, m);
    LineMoves(t, p, indent, l.open);
    hide YieldOf, Spliced, LineOf, Within;
  }

  lemma YieldMoves(t: string, p: nat, indent: string, l: Lexeme, m: Lexeme)
    requires MovedWithin(t, p, indent, l, m)
    ensures LinesMoved(l, YieldOf(t, l), YieldOf(Spliced(t, p, indent), m), p)
  {
    hide YieldOf, Moved, Within, Spliced;
    FirstLineMoves(t, p, indent, l, m);
    var y, z := YieldOf(t, l), YieldOf(Spliced(t, p, indent), m);
    forall k | 0 <= k < |l.body.at| ensures z.lines[k + 1] == y.lines[k + 1] + if l.body.at[k] < p then 0 else 1 {
      OneLineMoves(t, p, indent, l, m, k);
    }
  }

  lemma WithinFits(t: string, b: Body)
    requires Within(t, b)
    ensures |b.text| == |b.at| && forall k :: 0 <= k < |b.at| ==> b.at[k] <= |t|
  {
  }

  lemma YieldLines(t: string, l: Lexeme)
    requires l.open < |t| && Within(t, l.body)
    ensures var y := YieldOf(t, l);
            y.text == "\"" + l.body.text + "\"" &&
                |y.lines| == |l.body.at| + 2 + (if l.body.end.Dangling? then 1 else 0) &&
            y.lines[0] == LineOf(t, l.open) && forall k :: 0 <= k < |l.body.at| ==>
                y.lines[k + 1] == LineOf(t, l.body.at[k])
  {
  }

  /** A continuation inserted inside a literal leaves every literal of the file with its text, each
      character on the line it was on or, behind the splice, on the next. */
  lemma SpliceMovesLines(t: string, p: nat, indent: string)
    requires Spliceable(t, p) && forall k :: 0 <= k < |indent| ==> IsBlank(indent[k])
    ensures var (u, ls, ms) := (Spliced(t, p, indent), Lexemes(t), Lexemes(Spliced(t, p, indent)));
            AllMoved(ls, ms, p, 2 + |indent|) && AllWithin(t, ls, 0) && AllWithin(u, ms, 0) &&
            forall k :: 0 <= k < |ls| ==> LinesMoved(ls[k], YieldOf(t, ls[k]), YieldOf(u, ms[k]), p)
  {
    var u, ls, ms := Spliced(t, p, indent), Lexemes(t), Lexemes(Spliced(t, p, indent));
    SplicedMoves(t, p, indent);
    assert t[0..] == t && u[0..] == u;
    LexWithin(' ', t, 0);
    LexWithin(' ', u, 0);
    hide Lex, LinesMoved, Moved, Within, YieldOf, Spliced;
    forall k | 0 <= k < |ls| ensures LinesMoved(ls[k], YieldOf(t, ls[k]), YieldOf(u, ms[k]), p) {
      YieldMoves(t, p, indent, ls[k], ms[k]);
    }
  }

  lemma SplicedMoves(t: string, p: nat, indent: string)
    requires Spliceable(t, p) && forall k :: 0 <= k < |indent| ==> IsBlank(indent[k])
    ensures AllMoved(Lexemes(t), Lexemes(Spliced(t, p, indent)), p, 2 + |indent|)
  {
    hide Lex, OpenBody, AllMoved;
    var l :| l in Lexemes(t) && l.open < p && OpenBody(t[l.open + 1..p]);
    OpensAtQuote(' ', t, 0, l);
    var a, y, v := t[..l.open], t[l.open + 1..p], t[p..];
    assert t == a + ("\"" + (y + v));
    assert Spliced(t, p, indent) == a + ("\"" + (y + Cut(indent, v)));
    LexCut(' ', a, y, indent, v, 0, l);
  }

  /** So no yielded text changes. */
  lemma SpliceKeepsTexts(t: string, p: nat, indent: string)
    requires Spliceable(t, p) && forall k :: 0 <= k < |indent| ==> IsBlank(indent[k])
    ensures Texts(Lexemes(Spliced(t, p, indent))) == Texts(Lexemes(t))
  {
    SplicedMoves(t, p, indent);
    hide Lex, Spliced;
  }
}
