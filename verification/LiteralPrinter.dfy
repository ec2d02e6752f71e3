/** The literal reader inverts the printer: on any printed program it yields the
    ordinary literals and nothing else (scripts/check-message-whitespace.py, `iter_literals`). */
module LiteralPrinter {
  import opened Common
  import opened RustSource
  import opened LiteralLexer
  import opened LiteralScan

  /** `i`, printed before `next`, is read back as itself. */
  predicate WfItem(i: Item, next: string) {
    match i
    case Ch(c) => c != '"' && c != '\\'
    case Esc(e) => e != '\n'
    case Cont(indent) => (forall k :: 0 <= k < |indent| ==> IsBlank(indent[k])) && (next != "" ==> !IsBlank(next[0]))
  }

  predicate WfItems(items: seq<Item>, next: string) {
    items == [] || (WfItem(items[0], PrintItems(items[1..]) + next) && WfItems(items[1..], next))
  }

  /** `p`, printed between `prev` and `next`, is read back as itself.  A lifetime is
      an apostrophe in code; a quote right after a word character is not a literal here.
      The reader knows no char literal with a longer escape: the apostrophe that closes one
      must not look like the start of another. */
  predicate WfPiece(prev: char, p: Piece, next: string) {
    match p
    case Code(c) =>
      c != '"' && !(c == '/' && next != "" && (next[0] == '/' || next[0] == '*')) &&
      !(c == '\'' && CharLitLen([c] + next) > 0) && !(RawOpens([c] + next) && !IsWord(prev))
    case Line(text) => WfLine(text, next)
    case Block(nest) => WfNest(nest)
    case Raw(_, hashes, body) => !IsWord(prev) && WfRaw(hashes, body)
    case CharLit(c) => c !in {'\'', '\\', '\n'}
    case CharEsc(e) => e != '\n'
    case CharLong(e) => WfLong(e) && CharLitLen("'" + next) == 0
    case Quoted(items) => !IsWord(prev) && WfItems(items, "\"")
  }

  function Last(s: string): char
    requires s != ""
  {
    s[|s| - 1]
  }

  predicate WfProgram(prev: char, ps: seq<Piece>)
    decreases |ps|
  {
    ps == [] || (WfPiece(prev, ps[0], Print(ps[1..])) && WfProgram(Last(PrintPiece(ps[0])), ps[1..]))
  }

  /** The text an item contributes: a continuation and its indent vanish. */
  function ItemText(i: Item): string {
    match i
    case Ch(c) => [c]
    case Esc(e) => ['\\', e]
    case Cont(_) => ""
  }

  function ItemAt(i: Item, off: nat): (at: seq<nat>)
    ensures |at| == |ItemText(i)|
  {
    match i
    case Ch(_) => [off]
    case Esc(_) => [off, off + 1]
    case Cont(_) => []
  }

  function TextOf(items: seq<Item>): string {
    if items == [] then "" else ItemText(items[0]) + TextOf(items[1..])
  }

  function OffsetsOf(items: seq<Item>, off: nat): seq<nat> {
    if items == [] then [] else ItemAt(items[0], off) + OffsetsOf(items[1..], off + |PrintItem(items[0])|)
  }

  function BodyOf(items: seq<Item>, off: nat): Body
  {
    Body(|PrintItems(items)| + 1, TextOf(items), OffsetsOf(items, off), Closed)
  }

  function PieceLiterals(p: Piece, off: nat): seq<Lexeme> {
    if p.Quoted? then [Lexeme(off, BodyOf(p.items, off + 1))] else []
  }

  /** The literals of a program: its `Quoted` pieces, where they stand. */
  function LiteralsOf(ps: seq<Piece>, off: nat): seq<Lexeme> {
    if ps == [] then [] else PieceLiterals(ps[0], off) + LiteralsOf(ps[1..], off + |PrintPiece(ps[0])|)
  }

  // ---- bodies ----

  lemma BodyChar(c: char, r: string, off: nat)
    requires c != '"' && c != '\\'
    ensures ReadBody([c] + r, off) == Behind(1, [c], [off], ReadBody(r, off + 1))
  {
    hide Behind;
    Split([c], r);
  }

  lemma BodyEscape(e: char, r: string, off: nat)
    requires e != '\n'
    ensures ReadBody(['\\', e] + r, off) == Behind(2, ['\\', e], [off, off + 1], ReadBody(r, off + 2))
  {
    hide Behind;
    Split(['\\', e], r);
  }

  lemma BlanksIs(s: string, k: nat)
    requires k <= |s| && (forall j :: 0 <= j < k ==> IsBlank(s[j])) && (k < |s| ==> !IsBlank(s[k]))
    ensures Blanks(s) == k
  {
  }

  lemma BlanksPrinted(indent: string, r: string)
    requires (forall k :: 0 <= k < |indent| ==> IsBlank(indent[k])) && (r != "" ==> !IsBlank(r[0]))
    ensures Blanks(indent + r) == |indent|
  {
    BlanksIs(indent + r, |indent|);
  }

  lemma BodyContinues(indent: string, r: string, off: nat)
    requires (forall k :: 0 <= k < |indent| ==> IsBlank(indent[k])) && (r != "" ==> !IsBlank(r[0]))
    ensures var k := 2 + |indent|;
            ReadBody("\\\n" + indent + r, off) == Behind(k, "", [], ReadBody(r, off + k))
  {
    hide Behind, Blanks;
    var s := "\\\n" + indent + r;
    Assoc("\\\n", indent, r);
    Split("\\\n", indent + r);
    BlanksPrinted(indent, r);
    Split("\\\n" + indent, r);
  }

  lemma BodyItem(i: Item, r: string, off: nat)
    requires WfItem(i, r)
    ensures ReadBody(PrintItem(i) + r, off) ==
            Behind(|PrintItem(i)|, ItemText(i), ItemAt(i, off), ReadBody(r, off + |PrintItem(i)|))
  {
    hide Behind, ReadBody;
    match i
    case Ch(c) => BodyChar(c, r, off);
    case Esc(e) => BodyEscape(e, r, off);
    case Cont(indent) => BodyContinues(indent, r, off);
  }

  /** A printed body is read back exactly, whatever follows its closing quote. */
  lemma {:induction false} BodyPrinted(items: seq<Item>, r: string, off: nat)
    requires WfItems(items, "\"")
    ensures ReadBody(PrintItems(items) + ("\"" + r), off) == BodyOf(items, off)
  {
    hide ReadBody, PrintItem, ItemText, ItemAt, WfItem;
    if items == [] {
      assert PrintItems(items) + ("\"" + r) == "\"" + r;
      BodyCloses(r, off);
    } else {
      var i, rest := items[0], items[1..];
      var p, q := PrintItem(i), PrintItems(rest) + ("\"" + r);
      BodyPrinted(rest, r, off + |p|);
      WfItemLonger(i, PrintItems(rest) + "\"", r);
      Assoc(PrintItems(rest), "\"", r);
      BodyItem(i, q, off);
      Assoc(p, PrintItems(rest), "\"" + r);
    }
  }

  lemma BodyCloses(r: string, off: nat)
    ensures ReadBody("\"" + r, off) == Body(1, "", [], Closed)
  {
  }

  lemma WfItemLonger(i: Item, next: string, r: string)
    requires WfItem(i, next) && next != ""
    ensures WfItem(i, next + r)
  {
  }

  // ---- pieces ----

  /** One token without a literal is passed. */
  lemma Passed(prev: char, front: string, r: string, off: nat)
    requires front != "" && TokenLen(prev, front + r) == |front| && !OpensLiteral(prev, front + r)
    ensures Lex(prev, front + r, off) == Lex(Last(front), r, off + |front|)
  {
    hide TokenLen, Lex;
    LexSplits(prev, front + r, off);
    NoLexeme(prev, front + r, off, []);
    Split(front, r);
  }

  lemma CodePassed(prev: char, c: char, r: string, off: nat)
    requires WfPiece(prev, Code(c), r)
    ensures Lex(prev, [c] + r, off) == Lex(c, r, off + 1)
  {
    hide RawOpens, CharLitLen;
    var s := [c] + r;
    assert s[0] == c && (r != "" ==> s[1] == r[0]);
    if c == '\n' {
      TokenNewline(prev, s);
    } else if c == '\'' {
      TokenTick(prev, s);
    } else {
      TokenPlain(prev, s);
    }
    Passed(prev, [c], r, off);
  }

  lemma LinePassed(prev: char, text: string, r: string, off: nat)
    requires WfLine(text, r)
    ensures Lex(prev, "//" + text + r, off) == Lex(Last("//" + text), r, off + 2 + |text|)
  {
    hide TokenLen, Lex, LineLen, WfLine, OpensLiteral;
    Assoc("//", text, r);
    TokenLine(prev, "//" + text + r);
    LineLenPrinted(text, r);
    Passed(prev, "//" + text, r, off);
  }

  lemma BlockPassed(prev: char, nest: Nest, r: string, off: nat)
    requires WfNest(nest)
    ensures Lex(prev, "/*" + PrintNest(nest) + r, off) ==
            Lex(Last("/*" + PrintNest(nest)), r, off + 2 + |PrintNest(nest)|)
  {
    hide TokenLen, Lex, BlockLen, WfNest, PrintNest, OpensLiteral;
    Assoc("/*", PrintNest(nest), r);
    Split("/*", PrintNest(nest) + r);
    TokenBlock(prev, "/*" + PrintNest(nest) + r);
    BlockLenPrinted(nest, r, 1);
    Passed(prev, "/*" + PrintNest(nest), r, off);
  }

  function RawText(byte: bool, h: nat, body: string): string {
    (if byte then "br" else "r") + Repeat('#', h) + "\"" + body + RawQuote(h)
  }

  lemma RawReads(byte: bool, h: nat, body: string, r: string)
    requires WfRaw(h, body)
    ensures var s := RawText(byte, h, body) + r;
            RawOpens(s) && RawLen(s) == |RawText(byte, h, body)|
  {
    hide WfRaw, Find, Hashes, Repeat, RawMark;
    var l := if byte then "br" else "r";
    var hs, q := Repeat('#', h), RawQuote(h);
    var y := body + q + r;
    var s := RawText(byte, h, body) + r;
    RawSpelling(l, hs, body, q, r);
    RawMarkPrinted(h, y);
    FindRaw(h, body, r);
    Split(l, hs + "\"" + y);
    Split(hs + "\"", y);
    Tail(s, |l|, h + 1);
  }

  lemma RawSpelling(l: string, hs: string, body: string, q: string, r: string)
    ensures l + hs + "\"" + body + q + r == l + (hs + "\"" + (body + q + r))
  {
    Assoc(l + hs + "\"" + body, q, r);
    Assoc(l + hs + "\"", body, q + r);
    Assoc(body, q, r);
    Assoc(l, hs, "\"");
    Assoc(l, hs + "\"", body + q + r);
  }

  lemma RawPassed(prev: char, byte: bool, h: nat, body: string, r: string, off: nat)
    requires !IsWord(prev) && WfRaw(h, body)
    ensures Lex(prev, RawText(byte, h, body) + r, off) ==
            Lex(Last(RawText(byte, h, body)), r, off + |RawText(byte, h, body)|)
  {
    hide TokenLen, Lex, RawOpens, RawLen, WfRaw;
    RawReads(byte, h, body, r);
    TokenRaw(prev, RawText(byte, h, body) + r);
    Passed(prev, RawText(byte, h, body), r, off);
  }

  lemma CharPassed(prev: char, front: string, r: string, off: nat)
    requires |front| >= 3 && CharLitLen(front) == |front|
    ensures Lex(prev, front + r, off) == Lex(Last(front), r, off + |front|)
  {
    hide TokenLen, Lex;
    var s := front + r;
    assert CharLitLen(s) == |front|;
    assert s[0] == '\'';
    TokenTick(prev, s);
    Passed(prev, front, r, off);
  }

  lemma NoRawOpens(c: char, r: string)
    requires c != 'r' && (c != 'b' || r == "" || r[0] != 'r')
    ensures !RawOpens([c] + r)
  {
    var s := [c] + r;
    assert s[0] == c && (r != "" ==> s[1] == r[0]);
    assert RawPrefix(s) == 0;
  }

  lemma {:induction false} EscapeRun(prev: char, f: string, r: string, off: nat)
    requires (forall k :: 0 <= k < |f| ==> EscapeChar(f[k])) && r != "" && r[0] == '\''
    ensures Lex(prev, f + r, off) == Lex(if f == "" then prev else Last(f), r, off + |f|)
    decreases |f|
  {
    hide Lex, RawOpens, CharLitLen;
    if f == "" {
      assert f + r == r;
    } else {
      var c, g := f[0], f[1..];
      assert f == [c] + g;
      var rest := g + r;
      assert rest[0] == if g == "" then '\'' else g[0];
      assert g != "" ==> EscapeChar(f[1]) && f[1] == g[0];
      NoRawOpens(c, rest);
      CodePassed(prev, c, rest, off);
      Assoc([c], g, r);
      EscapeRun(c, g, r, off + 1);
    }
  }

  /** Up to its closing apostrophe, a char literal with a longer escape is passed one character at a time. */
  lemma LongFront(prev: char, e: string, r: string, off: nat)
    requires WfLong(e)
    ensures Lex(prev, "'\\" + e + "'" + r, off) == Lex(Last(e), "'" + r, off + 2 + |e|)
  {
    hide Lex, RawOpens, CharLitLen;
    var tail := e + ("'" + r);
    var s := ['\''] + (['\\'] + tail);
    assert s == "'\\" + e + "'" + r;
    assert tail[0] == e[0] && tail[1] == e[1];
    NotYetClosed(tail);
    NoRawOpens('\'', ['\\'] + tail);
    CodePassed(prev, '\'', ['\\'] + tail, off);
    NoRawOpens('\\', tail);
    CodePassed('\'', '\\', tail, off + 1);
    EscapeRun('\\', e, "'" + r, off + 2);
  }

  lemma NotYetClosed(tail: string)
    requires |tail| >= 2 && tail[1] != '\''
    ensures CharLitLen(['\''] + (['\\'] + tail)) == 0
  {
    var s := ['\''] + (['\\'] + tail);
    assert s[1] == '\\' && s[3] == tail[1];
  }

  /** A char literal with a longer escape is passed exactly when its closing apostrophe does not
      look like the start of a char literal; otherwise that one is passed with it. */
  lemma LongEscapeReads(prev: char, e: string, r: string, off: nat)
    requires WfLong(e)
    ensures var (p, k) := ("'\\" + e + "'", CharLitLen("'" + r));
            Lex(prev, p + r, off) ==
            if k == 0 then Lex('\'', r, off + |p|) else Lex('\'', r[k - 1..], off + |p| + k - 1)
  {
    hide Lex, RawOpens;
    LongFront(prev, e, r, off);
    var q, o := "'" + r, off + 2 + |e|;
    var k := CharLitLen(q);
    if k == 0 {
      hide CharLitLen;
      assert q == ['\''] + r;
      NoRawOpens('\'', r);
      CodePassed(Last(e), '\'', r, o);
    } else {
      CharFront(q);
      hide CharLitLen;
      assert q == q[..k] + q[k..] && q[k..] == r[k - 1..];
      CharPassed(Last(e), q[..k], q[k..], o);
    }
  }

  lemma CharFront(s: string)
    requires CharLitLen(s) > 0
    ensures var k := CharLitLen(s); k >= 3 && CharLitLen(s[..k]) == k && s[k - 1] == '\'' && Last(s[..k]) == '\''
  {
    var k := CharLitLen(s);
    assert forall j :: 0 <= j < k ==> s[..k][j] == s[j];
  }

  lemma QuotedRead(prev: char, items: seq<Item>, r: string, off: nat)
    requires !IsWord(prev) && WfItems(items, "\"")
    ensures var p := "\"" + PrintItems(items) + "\"";
            Lex(prev, p + r, off) == [Lexeme(off, BodyOf(items, off + 1))] + Lex('"', r, off + |p|)
  {
    hide TokenLen, Lex, ReadBody, WfItems, PrintItems;
    var b := PrintItems(items);
    var p := "\"" + b + "\"";
    var s := p + r;
    Assoc("\"" + b, "\"", r);
    Assoc("\"", b, "\"" + r);
    Split("\"", b + ("\"" + r));
    BodyPrinted(items, r, 0);
    BodyPrinted(items, r, off + 1);
    TokenLiteral(prev, s);
    LexSplits(prev, s, off);
    Split(p, r);
  }

  lemma PieceRead(prev: char, p: Piece, r: string, off: nat)
    requires WfPiece(prev, p, r)
    ensures Lex(prev, PrintPiece(p) + r, off) ==
            PieceLiterals(p, off) + Lex(Last(PrintPiece(p)), r, off + |PrintPiece(p)|)
  {
    hide Lex, WfLine, WfNest, WfRaw, WfItems, BodyOf, PrintItems, PrintNest;
    match p
    case Code(c) => CodePassed(prev, c, r, off);
    case Line(text) => LinePassed(prev, text, r, off);
    case Block(nest) => BlockPassed(prev, nest, r, off);
    case Raw(byte, h, body) => RawPassed(prev, byte, h, body, r, off);
    case CharLit(_) => CharPassed(prev, PrintPiece(p), r, off);
    case CharEsc(_) => CharPassed(prev, PrintPiece(p), r, off);
    case CharLong(e) =>
      LongEscapeReads(prev, e, r, off);
      hide CharLitLen;
    case Quoted(items) => QuotedRead(prev, items, r, off);
  }

  lemma {:induction false} LexPrinted(prev: char, ps: seq<Piece>, off: nat)
    requires WfProgram(prev, ps)
    ensures Lex(prev, Print(ps), off) == LiteralsOf(ps, off)
    decreases |ps|
  {
    hide WfPiece, PrintPiece, PieceLiterals, TokenLen, HeadLexeme;
    if ps == [] {
      assert Lex(prev, Print(ps), off) == [];
    } else {
      hide Lex;
      var p, rest := ps[0], ps[1..];
      LexPrinted(Last(PrintPiece(p)), rest, off + |PrintPiece(p)|);
      PieceRead(prev, p, Print(rest), off);
    }
  }

  /** Printer and reader are inverse: the reader never loses its place. */
  lemma LexemesOfPrinted(ps: seq<Piece>)
    requires WfProgram(' ', ps)
    ensures Lexemes(Print(ps)) == LiteralsOf(ps, 0)
  {
    LexPrinted(' ', ps, 0);
  }

  // ---- outside the printed programs ----

  /** Two char literals in an array, the first written with a longer escape. */
  const LONG_ESCAPE := "['\\u{1}','\"']"

  /** The apostrophe that closes the first literal, the comma and the next apostrophe are taken
      for a char literal, and the quote behind them opens a literal the program does not have. */
  lemma LongEscapeLoses()
    ensures exists l :: l in Lexemes(LONG_ESCAPE) && l.open == 10
  {
    hide Lex, ReadBody, TokenLen;
    var e, r, tail := "u{1}", ",'\"']", "\"']";
    var p := "'\\" + e + "'";
    SpelledOut(p, r, tail);
    NoRawOpens('[', p + r);
    CodePassed(' ', '[', p + r, 0);
    LongEscapeReads('[', e, r, 1);
    LexSplits('\'', tail, 10);
    var l := Lexeme(10, ReadBody(tail[1..], 11));
    assert l in HeadLexeme('\'', tail, 10);
    assert l in Lex('\'', tail, 10);
    assert l in Lexemes(LONG_ESCAPE);
  }

  lemma SpelledOut(p: string, r: string, tail: string)
    requires p == "'\\" + "u{1}" + "'" && r == ",'\"']" && tail == "\"']"
    ensures LONG_ESCAPE == ['['] + (p + r) && |p| == 7 && CharLitLen("'" + r) == 3 && r[2..] == tail
  {
  }
}
