/** `strip_noise` read against printed programs: comments vanish, string bodies
    vanish unless they spell an identifier, and code is untouched
    (scripts/check-test-env-globals.py). */
module NoisePrinter {
  import opened Common
  import opened RustSource
  import opened NoiseStripper

  /** The body characters that are not written as an escape. */
  function PlainItem(i: Item): string {
    match i
    case Ch(c) => [c]
    case Esc(_) => ""
    case Cont(indent) => indent
  }

  function PlainChars(items: seq<Item>): string {
    if items == [] then "" else PlainItem(items[0]) + PlainChars(items[1..])
  }

  predicate WfItem(i: Item) {
    match i
    case Ch(c) => c != '"' && c != '\\'
    case Esc(_) => true
    case Cont(indent) => '"' !in indent && '\\' !in indent
  }

  predicate WfItems(items: seq<Item>) {
    forall k :: 0 <= k < |items| ==> WfItem(items[k])
  }

  /** `p`, printed before `next`, is not mistaken for something else.  The scanner
      knows no character literals: they must not hold a quote. */
  predicate WfPiece(p: Piece, next: string) {
    match p
    case Code(c) =>
      c != '"' && !(c == '/' && next != "" && (next[0] == '/' || next[0] == '*')) && !(c == 'r' && RawMark(next))
    case Line(text) => WfLine(text, next)
    case Block(nest) => WfNest(nest)
    case Raw(_, hashes, body) => WfRaw(hashes, body)
    case CharLit(c) => c != '"'
    case CharEsc(e) => e != '"'
    case CharLong(e) => WfLong(e)
    case Quoted(items) => WfItems(items)
  }

  predicate WfProgram(ps: seq<Piece>) {
    ps == [] || (WfPiece(ps[0], Print(ps[1..])) && WfProgram(ps[1..]))
  }

  /** What must be left of one piece. */
  function Kept(p: Piece): string {
    match p
    case Code(_) => PrintPiece(p)
    case CharLit(_) => PrintPiece(p)
    case CharEsc(_) => PrintPiece(p)
    case CharLong(_) => PrintPiece(p)
    case Line(_) => Blanked(PrintPiece(p))
    case Block(_) => Blanked(PrintPiece(p))
    case Raw(byte, hashes, body) =>
      (if byte then "br" else "r") + Repeat('#', hashes) + "\"" + Blanked(body) + RawQuote(hashes)
    case Quoted(items) =>
      if IsIdent(PrintItems(items)) then PrintPiece(p) else "\"" + Blanked(PrintItems(items)) + "\""
  }

  function KeptProgram(ps: seq<Piece>): string {
    if ps == [] then "" else Kept(ps[0]) + KeptProgram(ps[1..])
  }

  lemma PlainStep(c: char, r: string)
    requires c != '"' && !(c == '/' && r != "" && (r[0] == '/' || r[0] == '*')) && !(c == 'r' && RawMark(r))
    ensures Stripped([c] + r) == [c] + Stripped(r)
  {
    hide RawMark;
    var s := [c] + r;
    assert s[0] == c && s[1..] == r;
    assert Head(s) == Token(1, 0, 0);
    assert Left(s, Head(s)) == [c];
  }

  lemma TokenStep(front: string, r: string, t: Token)
    requires front + r != "" && Head(front + r) == t && t.len == |front|
    ensures Stripped(front + r) == Left(front, t) + Stripped(r)
  {
    hide Head, Stripped;
    var x := front + r;
    Split(front, r);
    StripSplits(x, t, r);
    hide Blanked;
    assert x[..t.from] == front[..t.from] && x[t.from..t.to] == front[t.from..t.to] && x[t.to..t.len] == front[t.to..];
  }

  lemma LineStep(text: string, r: string)
    requires WfLine(text, r)
    ensures Stripped("//" + text + r) == Blanked("//" + text) + Stripped(r)
  {
    hide Head, Stripped, Left, Blanked, LineLen, WfLine;
    var front := "//" + text;
    Assoc("//", text, r);
    HeadLine(front + r);
    LineLenPrinted(text, r);
    TokenStep(front, r, Token(|front|, 0, |front|));
    LeftBlank(front);
  }

  lemma BlockStep(nest: Nest, r: string)
    requires WfNest(nest)
    ensures Stripped("/*" + PrintNest(nest) + r) == Blanked("/*" + PrintNest(nest)) + Stripped(r)
  {
    hide Head, Stripped, Left, Blanked, BlockLen, WfNest, PrintNest;
    var front := "/*" + PrintNest(nest);
    Assoc("/*", PrintNest(nest), r);
    Split("/*", PrintNest(nest) + r);
    HeadBlock(front + r);
    BlockLenPrinted(nest, r, 1);
    TokenStep(front, r, Token(|front|, 0, |front|));
    LeftBlank(front);
  }

  lemma RawStep(h: nat, body: string, r: string)
    requires WfRaw(h, body)
    ensures Stripped("r" + Repeat('#', h) + "\"" + body + RawQuote(h) + r) ==
            "r" + Repeat('#', h) + "\"" + Blanked(body) + RawQuote(h) + Stripped(r)
  {
    hide Head, Stripped, Find, WfRaw, Repeat, Blanked;
    var q, g := RawQuote(h), Repeat('#', h) + "\"";
    var front := "r" + Repeat('#', h) + "\"" + body + q;
    FindRaw(h, body, r);
    HeadRaw(h, body + q + r);
    Assoc("r", Repeat('#', h), "\"");
    Regroup("r" + g, body, q, r, g);
    Assoc(body, q, r);
    assert front == "r" + g + body + q;
    var t := Token(|front|, h + 2, h + 2 + |body|);
    TokenStep(front, r, t);
    LeftMiddle("r" + g, body, q);
  }

  lemma LeftMiddle(a: string, b: string, c: string)
    requires a != ""
    ensures Left(a + b + c, Token(|a| + |b| + |c|, |a|, |a| + |b|)) == a + Blanked(b) + c
  {
    hide Blanked;
    var s := a + b + c;
    assert s[..|a|] == a && s[|a|..|a| + |b|] == b && s[|a| + |b|..|s|] == c;
  }

  lemma {:induction false} QuoteItems(items: seq<Item>, r: string)
    requires WfItems(items)
    ensures QuoteAt(PrintItems(items) + r) == |PrintItems(items)| + QuoteAt(r)
    ensures Collected(PrintItems(items) + r) == PlainChars(items) + Collected(r)
  {
    hide QuoteAt, Collected, PrintItem;
    if items == [] {
      assert PrintItems(items) + r == r;
    } else {
      var i, rest := items[0], items[1..];
      var p, q := PrintItem(i), PrintItems(rest);
      QuoteItems(rest, r);
      QuoteItem(i, q + r);
      Assoc(p, q, r);
      Assoc(PlainItem(i), PlainChars(rest), Collected(r));
    }
  }

  lemma QuoteItem(i: Item, q: string)
    requires WfItem(i)
    ensures QuoteAt(PrintItem(i) + q) == |PrintItem(i)| + QuoteAt(q)
    ensures Collected(PrintItem(i) + q) == PlainItem(i) + Collected(q)
  {
    hide QuoteAt, Collected;
    match i
    case Ch(c) => QuoteStep(c, q);
    case Esc(e) => QuoteSkip(e, q);
    case Cont(indent) =>
      assert "\\\n" + indent + q == ['\\', '\n'] + (indent + q);
      QuoteSkip('\n', indent + q);
      QuoteAtPlain(indent, q);
  }

  /** A string whose body is no identifier, but spells one where escapes are left out. */
  predicate Masked(p: Piece) {
    p.Quoted? && IsIdent(PlainChars(p.items)) && !IsIdent(PrintItems(p.items))
  }

  /** What the scanner leaves of a string. */
  lemma QuotedLeft(items: seq<Item>, r: string)
    requires WfItems(items)
    ensures var b := PrintItems(items);
            Stripped("\"" + b + "\"" + r) ==
            "\"" + (if IsIdent(PlainChars(items)) then b else Blanked(b)) + "\"" + Stripped(r)
  {
    hide Head, Stripped, QuoteAt, Collected, PrintItems, IsIdent, PlainChars, Left, Blanked, WfItems;
    var b := PrintItems(items);
    var front := "\"" + b + "\"";
    QuoteItems(items, "\"" + r);
    CollectedNone("\"" + r);
    QuoteAtHere("\"" + r);
    Assoc("\"" + b, "\"", r);
    Assoc("\"", b, "\"" + r);
    Split("\"", b + ("\"" + r));
    HeadQuoted(front + r);
    assert PlainChars(items) + "" == PlainChars(items);
    var t := Token(|front|, 1, if IsIdent(PlainChars(items)) then 1 else 1 + |b|);
    TokenStep(front, r, t);
    LeftMiddle("\"", b, "\"");
    LeftWhole(front);
  }

  lemma WrittenWithBackslash(i: Item)
    requires !i.Ch?
    ensures '\\' in PrintItem(i)
  {
    assert PrintItem(i)[0] == '\\';
  }

  /** A body that spells an identifier has no escapes to leave out. */
  lemma {:induction false} IdentIsPlain(items: seq<Item>)
    requires '\\' !in PrintItems(items)
    ensures PlainChars(items) == PrintItems(items)
  {
    if items != [] {
      var p, q := PrintItem(items[0]), PrintItems(items[1..]);
      assert PrintItems(items) == p + q;
      assert forall c :: c in p || c in q ==> c in p + q;
      if !items[0].Ch? {
        WrittenWithBackslash(items[0]);
      }
      IdentIsPlain(items[1..]);
    }
  }

  lemma NoBackslash(s: string)
    requires IsIdent(s)
    ensures '\\' !in s
  {
  }

  lemma QuotedStep(items: seq<Item>, r: string)
    requires WfItems(items) && !Masked(Quoted(items))
    ensures Stripped("\"" + PrintItems(items) + "\"" + r) == Kept(Quoted(items)) + Stripped(r)
  {
    hide Stripped, IsIdent, PrintItems, PlainChars, Blanked;
    QuotedLeft(items, r);
    if IsIdent(PrintItems(items)) {
      NoBackslash(PrintItems(items));
      IdentIsPlain(items);
    }
  }

  /** The body of a masked string survives, though it is no identifier. */
  lemma MaskedLoses(p: Piece, r: string)
    requires Masked(p) && WfItems(p.items)
    ensures !(Kept(p) <= Stripped(PrintPiece(p) + r))
  {
    hide Stripped, Blanked;
    var items, b := p.items, PrintItems(p.items);
    QuotedLeft(items, r);
    var k := PlainPlace(items);
    hide IsIdent, PlainChars, PrintItems;
    var left := "\"" + b + "\"" + Stripped(r);
    assert left[1 + k] == b[k];
    BlankedPlace(b, k);
    assert Kept(p)[1 + k] == Blanked(b)[k];
  }

  /** Some character of the body is no blank. */
  lemma {:induction false} PlainPlace(items: seq<Item>) returns (k: nat)
    requires PlainChars(items) != "" && IdentStart(PlainChars(items)[0])
    ensures k < |PrintItems(items)| && PrintItems(items)[k] != ' ' && PrintItems(items)[k] != '\n'
  {
    if PlainItem(items[0]) == "" || items[0].Cont? {
      k := 0;
      assert PrintItem(items[0])[0] == '\\';
    } else {
      k := 0;
    }
  }

  lemma BlankedPlace(b: string, k: nat)
    requires k < |b| && b[k] != ' ' && b[k] != '\n'
    ensures |Blanked(b)| == |b| && Blanked(b)[k] != b[k]
  {
  }

  lemma LeftWhole(s: string)
    requires s != ""
    ensures Left(s, Token(|s|, 1, 1)) == s
  {
  }

  lemma CharsStep(c: char, r: string)
    requires c != '"'
    ensures Stripped(['\'', c, '\''] + r) == ['\'', c, '\''] + Stripped(r)
  {
    hide Stripped;
    PlainStep('\'', r);
    PlainStep(c, ['\''] + r);
    PlainStep('\'', [c, '\''] + r);
    assert ['\'', c, '\''] + r == ['\''] + ([c, '\''] + r);
    assert [c, '\''] + r == [c] + (['\''] + r);
  }

  lemma EscapeStep(e: char, r: string)
    requires e != '"'
    ensures Stripped(['\'', '\\', e, '\''] + r) == ['\'', '\\', e, '\''] + Stripped(r)
  {
    hide Stripped;
    PlainStep('\'', ['\\', e, '\''] + r);
    PlainStep('\\', [e, '\''] + r);
    PlainStep(e, ['\''] + r);
    PlainStep('\'', r);
    assert ['\'', '\\', e, '\''] + r == ['\''] + (['\\', e, '\''] + r);
    assert ['\\', e, '\''] + r == ['\\'] + ([e, '\''] + r);
    assert [e, '\''] + r == [e] + (['\''] + r);
  }

  /** Characters that can open nothing are kept. */
  lemma {:induction false} PlainRun(f: string, r: string)
    requires '"' !in f && '/' !in f && 'r' !in f
    ensures Stripped(f + r) == f + Stripped(r)
  {
    hide Stripped;
    if f == "" {
      assert f + r == r && f + Stripped(r) == Stripped(r);
    } else {
      var c, g := f[0], f[1..];
      assert f == [c] + g && c in f;
      PlainRun(g, r);
      PlainStep(c, g + r);
      Assoc([c], g, r);
      Assoc([c], g, Stripped(r));
    }
  }

  lemma PieceStep(p: Piece, r: string)
    requires WfPiece(p, r) && !Masked(p)
    ensures Stripped(PrintPiece(p) + r) == Kept(p) + Stripped(r)
  {
    hide Stripped, WfLine, WfNest, WfRaw, WfItems, IsIdent;
    match p
    case Code(c) => PlainStep(c, r);
    case Line(text) => LineStep(text, r);
    case Block(nest) => BlockStep(nest, r);
    case Raw(byte, h, body) =>
      RawStep(h, body, r);
      var front := "r" + Repeat('#', h) + "\"" + body + RawQuote(h);
      if byte {
        PlainStep('b', front + r);
        assert PrintPiece(p) + r == ['b'] + (front + r);
      }
    case CharLit(c) => CharsStep(c, r);
    case CharEsc(e) => EscapeStep(e, r);
    case CharLong(e) => PlainRun("'\\" + e + "'", r);
    case Quoted(items) => QuotedStep(items, r);
  }

  /** On a printed program without masked strings the scanner never loses its place:
      what is left is what is left of each piece. */
  lemma {:induction false} StripPrinted(ps: seq<Piece>)
    requires WfProgram(ps) && forall p :: p in ps ==> !Masked(p)
    ensures Stripped(Print(ps)) == KeptProgram(ps)
  {
    if ps != [] {
      StripPrinted(ps[1..]);
      PieceStep(ps[0], Print(ps[1..]));
    }
  }

  // ---- char literals that hold a quote ----

  predicate QuotedQuote(p: Piece) {
    p == CharLit('"') || p == CharEsc('"')
  }

  /** A program in which char literals may hold a double quote too. */
  predicate LooseProgram(ps: seq<Piece>) {
    ps == [] ||
    ((QuotedQuote(ps[0]) || WfPiece(ps[0], Print(ps[1..]))) && LooseProgram(ps[1..]))
  }

  /** A string that starts with an apostrophe spells no identifier: its first character goes. */
  lemma ApostropheGoes(r: string)
    ensures |Stripped("\"'" + r)| > 1 && Stripped("\"'" + r)[1] == ' '
  {
    hide Head, QuoteAt, Collected, Blanked;
    var s := "\"'" + r;
    assert s[1..] == ['\''] + r;
    QuoteStep('\'', r);
    QuotedUnfolds(s);
    HeadQuoted(s);
    assert !IsIdent(Collected(s[1..]));
    BlankedAt(s[1..1 + QuoteAt(s[1..])]);
    StripSplits(s, Head(s), s[Head(s).len..]);
  }

  lemma BlankedAt(s: string)
    requires s != "" && s[0] != '\n'
    ensures Blanked(s) != "" && Blanked(s)[0] == ' '
  {
  }

  /** After a quoted quote the closing apostrophe is gone, whatever follows. */
  lemma QuotedQuoteLoses(p: Piece, r: string)
    requires QuotedQuote(p)
    ensures !(Kept(p) <= Stripped(PrintPiece(p) + r))
  {
    hide Stripped;
    ApostropheGoes(r);
    var q := "\"'" + r;
    if p.CharLit? {
      PlainStep('\'', q);
      assert PrintPiece(p) + r == ['\''] + q;
      assert Stripped(PrintPiece(p) + r)[2] == ' ' && Kept(p)[2] == '\'';
    } else {
      PlainStep('\'', ['\\'] + q);
      PlainStep('\\', q);
      assert PrintPiece(p) + r == ['\''] + (['\\'] + q);
      assert Stripped(PrintPiece(p) + r)[3] == ' ' && Kept(p)[3] == '\'';
    }
  }

  lemma MaskedPiece(p: Piece, r: string)
    requires Masked(p) && WfPiece(p, r)
    ensures !(Kept(p) <= Stripped(PrintPiece(p) + r))
  {
    hide Masked, Kept, Stripped, PrintPiece;
    IsQuoted(p);
    MaskedLoses(p, r);
  }

  lemma IsQuoted(p: Piece)
    requires Masked(p)
    ensures p.Quoted?
  {
  }

  lemma SameFront(a: string, b: string, c: string)
    ensures a + b == a + c <==> b == c
  {
    Split(a, b);
    Split(a, c);
  }

  /** What is left of a printed program is what is left of each piece, exactly when no char
      literal holds a double quote and no string is masked by its escapes. */
  lemma {:induction false} StripPrintedIff(ps: seq<Piece>)
    requires LooseProgram(ps)
    ensures Stripped(Print(ps)) == KeptProgram(ps) <==> forall p :: p in ps ==> !QuotedQuote(p) && !Masked(p)
  {
    if ps != [] {
      hide Stripped, Kept, PrintPiece, WfPiece, QuotedQuote, Masked;
      var p, rest := ps[0], ps[1..];
      assert ps == [p] + rest;
      StripPrintedIff(rest);
      if QuotedQuote(p) {
        QuotedQuoteLoses(p, Print(rest));
        assert Kept(p) <= KeptProgram(ps);
      } else if Masked(p) {
        MaskedPiece(p, Print(rest));
        assert Kept(p) <= KeptProgram(ps);
      } else {
        PieceStep(p, Print(rest));
        SameFront(Kept(p), Stripped(Print(rest)), KeptProgram(rest));
      }
    }
  }

  const QUOTED_QUOTE := "'\"'\"a\"//\"c"

  /** What is lost can be as much as a comment: after `'"'` the
      scanner has strings and code swapped, and a comment character survives. */
  lemma QuoteCharLoses() returns (ps: seq<Piece>)
    ensures ps == [CharLit('"'), Quoted([Ch('a')]), Line("\"c")]
    ensures Print(ps) == QUOTED_QUOTE
    ensures Stripped(QUOTED_QUOTE)[9] == 'c'
  {
    ReadsAs();
    ps := [CharLit('"'), Quoted([Ch('a')]), Line("\"c")];
    PrintsAs(ps);
  }

  lemma PrintsAs(ps: seq<Piece>)
    requires ps == [CharLit('"'), Quoted([Ch('a')]), Line("\"c")]
    ensures Print(ps) == QUOTED_QUOTE
  {
    assert PrintItems([Ch('a')]) == "a";
    assert ps[1..] == [Quoted([Ch('a')]), Line("\"c")];
    assert ps[1..][1..] == [Line("\"c")];
    assert ps[1..][1..][1..] == [];
    assert Print(ps[1..][1..]) == "//\"c";
    assert Print(ps[1..]) == "\"a\"//\"c";
  }

  /** The same text, as the scanner takes it: a string between the two outer apostrophes. */
  lemma ReadsAs()
    ensures Stripped(QUOTED_QUOTE)[9] == 'c'
  {
    hide Stripped;
    var d := "\"" + PrintItems([Ch('/'), Ch('/')]) + "\"" + "c";
    var b := "\"" + PrintItems([Ch('\'')]) + "\"" + (['a'] + d);
    assert PrintItems([Ch('\'')]) == "'";
    assert [Ch('/'), Ch('/')][1..] == [Ch('/')];
    assert PrintItems([Ch('/'), Ch('/')]) == "//";
    assert QUOTED_QUOTE == ['\''] + b;
    PlainStep('\'', b);
    QuotedStep([Ch('\'')], ['a'] + d);
    PlainStep('a', d);
    QuotedStep([Ch('/'), Ch('/')], "c");
    PlainStep('c', "");
    assert "c" == ['c'] + "";
  }

  /** A string of a letter, an escape and a letter is left as it is, though its body is no identifier. */
  lemma EscapesMask()
    ensures var p := Quoted([Ch('a'), Esc('n'), Ch('b')]);
            LooseProgram([p]) && Masked(p) && Stripped(Print([p])) == Print([p]) && Kept(p) != PrintPiece(p)
  {
    var p := Quoted([Ch('a'), Esc('n'), Ch('b')]);
    MaskSpelled(p.items);
    assert WfPiece(p, "");
    assert Masked(p);
    hide Masked, Kept, Stripped, PrintPiece, LooseProgram;
    OnePiece(p);
    MaskedStays(p);
  }

  lemma MaskedStays(p: Piece)
    requires Masked(p) && WfItems(p.items)
    ensures Stripped(Print([p])) == Print([p]) && Kept(p) != PrintPiece(p)
  {
    var b := PrintItems(p.items);
    assert PrintPiece(p) == "\"" + b + "\"";
    QuotedLeft(p.items, "");
    NothingStripped();
    OnePiece(p);
    MaskedLoses(p, "");
    hide Kept, Stripped, PrintPiece;
  }

  lemma OnePiece(p: Piece)
    ensures Print([p]) == PrintPiece(p) == PrintPiece(p) + ""
    ensures LooseProgram([p]) <==> QuotedQuote(p) || WfPiece(p, "")
  {
    hide PrintPiece, WfPiece;
    assert [p][1..] == [];
    assert Print([p]) == PrintPiece(p) + "";
  }

  lemma MaskSpelled(items: seq<Item>)
    requires items == [Ch('a'), Esc('n'), Ch('b')]
    ensures PrintItems(items) == "a\\nb" && IsIdent(PlainChars(items)) && !IsIdent(PrintItems(items))
  {
    assert items[1..] == [Esc('n'), Ch('b')] && items[1..][1..] == [Ch('b')] && items[1..][1..][1..] == [];
    OneItem('b');
    assert PlainChars([Esc('n'), Ch('b')]) == "" + "b" && PlainChars(items) == "a" + "b";
    assert PrintItems([Esc('n'), Ch('b')]) == "\\n" + "b" && PrintItems(items) == "a" + "\\nb";
    hide PlainChars, PrintItems;
    assert "a\\nb"[1] == '\\';
  }

  lemma OneItem(c: char)
    ensures PlainChars([Ch(c)]) == [c] && PrintItems([Ch(c)]) == [c]
  {
    assert [Ch(c)][1..] == [];
  }

  lemma NothingStripped()
    ensures Stripped("") == ""
  {
  }
}
