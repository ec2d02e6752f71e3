/** Rust source text as a list of pieces, and its printer.

    Two scripts walk Rust files with hand-written scanners.  This module is the
    reference both are compared with: a program is a list of pieces, `Print`
    spells it, and each scanner states which piece lists it reads back. */
module RustSource {
  import opened Common

  /** The inside of a block comment, up to and including its closing mark. */
  datatype Nest =
    | Close
    | Char(c: char, rest: Nest)
    | Inner(inner: Nest, rest: Nest)

  /** One element of a string body: a character, a two-character escape, or a
      backslash-newline continuation with the indent of the next line. */
  datatype Item =
    | Ch(c: char)
    | Esc(e: char)
    | Cont(indent: string)

  datatype Piece =
    | Code(c: char)
    | Line(text: string)
    | Block(nest: Nest)
    | Raw(byte: bool, hashes: nat, body: string)
    | CharLit(c: char)
    | CharEsc(e: char)
    | CharLong(escape: string)
    | Quoted(items: seq<Item>)

  function PrintNest(n: Nest): (s: string)
    ensures |s| >= 2
  {
    match n
    case Close => "*/"
    case Char(c, rest) => [c] + PrintNest(rest)
    case Inner(inner, rest) => "/*" + PrintNest(inner) + PrintNest(rest)
  }

  function PrintItem(i: Item): string {
    match i
    case Ch(c) => [c]
    case Esc(e) => ['\\', e]
    case Cont(indent) => "\\\n" + indent
  }

  function PrintItems(items: seq<Item>): string {
    if items == [] then "" else PrintItem(items[0]) + PrintItems(items[1..])
  }

  function RawQuote(hashes: nat): string {
    "\"" + Repeat('#', hashes)
  }

  function PrintPiece(p: Piece): (s: string)
    ensures s != ""
  {
    match p
    case Code(c) => [c]
    case Line(text) => "//" + text
    case Block(nest) => "/*" + PrintNest(nest)
    case Raw(byte, hashes, body) =>
      (if byte then "br" else "r") + Repeat('#', hashes) + "\"" + body + RawQuote(hashes)
    case CharLit(c) => ['\'', c, '\'']
    case CharEsc(e) => ['\'', '\\', e, '\'']
    case CharLong(e) => "'\\" + e + "'"
    case Quoted(items) => "\"" + PrintItems(items) + "\""
  }

  function Print(ps: seq<Piece>): string {
    if ps == [] then "" else PrintPiece(ps[0]) + Print(ps[1..])
  }

  /** A comment character never forms a comment mark with what follows it. */
  predicate WfNest(n: Nest) {
    match n
    case Close => true
    case Char(c, rest) =>
      WfNest(rest) &&
      !(c == '/' && PrintNest(rest)[0] == '*') && !(c == '*' && PrintNest(rest)[0] == '/')
    case Inner(inner, rest) => WfNest(inner) && WfNest(rest)
  }

  /** The closing quote of a raw string does not occur before its end. */
  predicate WfRaw(hashes: nat, body: string) {
    forall k :: 0 <= k < |body| ==> !(RawQuote(hashes) <= (body + RawQuote(hashes))[k..])
  }

  predicate EscapeChar(c: char) {
    '0' <= c <= '9' || 'a' <= c <= 'f' || 'A' <= c <= 'F' || c in {'u', 'x', '{', '}', '_'}
  }

  /** What follows the backslash of an escape such as `\x41` or `\u{1F600}`. */
  predicate WfLong(e: string) {
    |e| >= 2 && forall k :: 0 <= k < |e| ==> EscapeChar(e[k])
  }

  predicate WfLine(text: string, next: string) {
    '\n' !in text && (next != "" ==> next[0] == '\n')
  }

  /** Characters up to the end of the line. */
  function LineLen(s: string): (k: nat)
    ensures k <= |s|
    ensures forall j :: 0 <= j < k ==> s[j] != '\n'
    ensures k < |s| ==> s[k] == '\n'
  {
    if s == "" || s[0] == '\n' then 0 else 1 + LineLen(s[1..])
  }

  /** Characters consumed inside a block comment at nesting depth `d`. */
  function BlockLen(s: string, d: nat): (k: nat)
    ensures k <= |s| && (s != "" ==> k >= 1)
  {
    if s == "" then 0
    else if "/*" <= s then 2 + BlockLen(s[2..], d + 1)
    else if "*/" <= s then if d <= 1 then 2 else 2 + BlockLen(s[2..], d - 1)
    else 1 + BlockLen(s[1..], d)
  }

  /** One turn of the comment loop, read off the specification. */
  lemma BlockTurn(t: string, i: nat, d: nat)
    requires i < |t|
    ensures if i + 1 < |t| && t[i] == '/' && t[i + 1] == '*' then
              BlockLen(t[i..], d) == 2 + BlockLen(t[i + 2..], d + 1)
            else if i + 1 < |t| && t[i] == '*' && t[i + 1] == '/' then
              BlockLen(t[i..], d) == if d <= 1 then 2 else 2 + BlockLen(t[i + 2..], d - 1)
            else BlockLen(t[i..], d) == 1 + BlockLen(t[i + 1..], d)
  {
    var s := t[i..];
    assert s[0] == t[i] && (i + 1 < |t| ==> s[1] == t[i + 1]);
    if i + 1 < |t| {
      assert s[2..] == t[i + 2..];
    }
    assert s[1..] == t[i + 1..];
  }

  lemma BlockOpens(r: string, d: nat)
    ensures BlockLen("/*" + r, d) == 2 + BlockLen(r, d + 1)
  {
    assert ("/*" + r)[2..] == r;
  }

  lemma BlockCloses(r: string, d: nat)
    requires d >= 1
    ensures BlockLen("*/" + r, d) == if d == 1 then 2 else 2 + BlockLen(r, d - 1)
  {
    var s := "*/" + r;
    assert s[0] == '*';
    assert s[2..] == r;
  }

  lemma BlockPlain(c: char, r: string, d: nat)
    requires r != "" && !(c == '/' && r[0] == '*') && !(c == '*' && r[0] == '/')
    ensures BlockLen([c] + r, d) == 1 + BlockLen(r, d)
  {
    var s := [c] + r;
    assert s[0] == c && s[1] == r[0];
    assert s[1..] == r;
  }

  /** A printed comment is consumed exactly, whatever follows it. */
  lemma {:induction false} BlockLenPrinted(n: Nest, rest: string, d: nat)
    requires WfNest(n) && d >= 1
    ensures BlockLen(PrintNest(n) + rest, d) ==
            |PrintNest(n)| + if d == 1 then 0 else BlockLen(rest, d - 1)
  {
    hide BlockLen;
    match n
    case Close =>
      BlockCloses(rest, d);
    case Char(c, r) =>
      var q := PrintNest(r);
      BlockLenPrinted(r, rest, d);
      BlockPlain(c, q + rest, d);
      assert [c] + q + rest == [c] + (q + rest);
    case Inner(inner, r) =>
      var p, q := PrintNest(inner), PrintNest(r);
      BlockLenPrinted(inner, q + rest, d + 1);
      BlockOpens(p + (q + rest), d);
      BlockLenPrinted(r, rest, d);
      assert "/*" + p + q + rest == "/*" + (p + (q + rest));
  }

  lemma LineLenPrinted(text: string, rest: string)
    requires WfLine(text, rest)
    ensures LineLen("//" + text + rest) == 2 + |text|
  {
    var s := "//" + text + rest;
    assert forall j :: 0 <= j < 2 + |text| ==> s[j] != '\n';
    assert rest != "" ==> s[2 + |text|] == rest[0];
  }

  /** Number of leading hash signs. */
  function Hashes(s: string): (k: nat)
    ensures k <= |s|
    ensures forall j :: 0 <= j < k ==> s[j] == '#'
    ensures k < |s| ==> s[k] != '#'
  {
    if s == "" || s[0] != '#' then 0 else 1 + Hashes(s[1..])
  }

  /** Whether hashes and then a quote come next: what follows the `r` of a raw string. */
  predicate RawMark(s: string) {
    Hashes(s) < |s| && s[Hashes(s)] == '"'
  }

  lemma RawMarkPrinted(h: nat, rest: string)
    ensures RawMark(Repeat('#', h) + "\"" + rest)
    ensures Hashes(Repeat('#', h) + "\"" + rest) == h
  {
    var s := Repeat('#', h) + "\"" + rest;
    assert s[h] == '"';
    assert forall j :: 0 <= j < h ==> s[j] == '#';
  }

  lemma FindRaw(h: nat, body: string, rest: string)
    requires WfRaw(h, body)
    ensures Find(body + RawQuote(h) + rest, RawQuote(h)) == |body|
  {
    var q := RawQuote(h);
    var s := body + q + rest;
    assert s[|body|..] == q + rest;
    forall k | 0 <= k < |body| ensures !(q <= s[k..]) {
      assert (body + q)[k..] == s[k..][..|body| + |q| - k];
    }
  }
}
