/** A backslash-newline and the next line's indent, inserted inside a literal,
    changes no token in front of it (scripts/check-message-whitespace.py, `iter_literals`). */
module LiteralSplice {
  import opened Common
  import opened RustSource
  import opened LiteralLexer
  import opened LiteralScan

  /** The texts that are yielded. */
  function Texts(ls: seq<Lexeme>): (r: seq<string>)
    ensures |r| == |ls|
  {
    seq(|ls|, k requires 0 <= k < |ls| => ls[k].body.text)
  }

  /** Literals open in order and within the text. */
  lemma {:induction false} OpensInOrder(prev: char, s: string, off: nat, l: Lexeme)
    requires l in Lex(prev, s, off)
    ensures off <= l.open
    decreases |s|
  {
    hide TokenLen, HeadLexeme;
    if s != "" {
      LexSplits(prev, s, off);
      hide Lex;
      var n := TokenLen(prev, s);
      if l in HeadLexeme(prev, s, off) {
        HeadReads(prev, s, off, l);
      } else {
        OpensInOrder(s[n - 1], s[n..], off + n, l);
      }
    }
  }

  // ---- bodies ----

  /** `y` is body text with no closing quote and no half-written escape at its end. */
  predicate OpenBody(y: string) {
    ReadBody(y, 0).end == Unclosed
  }

  ghost predicate NoBlankAhead(v: string) {
    v != "" ==> !IsBlank(v[0])
  }

  lemma BodyShift(s: string, off: nat)
    ensures var a, b := ReadBody(s, 0), ReadBody(s, off);
            a.len == b.len && a.text == b.text && a.end == b.end
  {
    ReadBodyShift(s, 0, off);
  }

  // One turn of the body reader, offsets aside.

  /** `k` characters, `text` among them, are read in front of the rest of `s`. */
  ghost predicate Reads(s: string, k: nat, text: string) {
    k <= |s| &&
    var b, r := ReadBody(s, 0), ReadBody(s[k..], 0);
    b.len == k + r.len && b.text == text + r.text && b.end == r.end
  }

  lemma ReadsPlain(s: string)
    requires s != "" && s[0] != '"' && s[0] != '\\'
    ensures Reads(s, 1, [s[0]])
  {
    hide ReadBody, Behind;
    PlainOpens(s, 0);
    BehindShift(1, [s[0]], [0], s[1..], 1);
  }

  lemma ReadsContinuation(s: string, k: nat)
    requires |s| > 1 && s[0] == '\\' && s[1] == '\n' && k == 2 + Blanks(s[2..])
    ensures Reads(s, k, "")
  {
    hide ReadBody, Behind, Blanks;
    ContinuationOpens(s, 0);
    BehindShift(k, "", [], s[k..], k);
  }

  lemma ReadsEscape(s: string)
    requires |s| > 1 && s[0] == '\\' && s[1] != '\n'
    ensures Reads(s, 2, s[..2])
  {
    hide ReadBody, Behind;
    EscapeOpens(s, 0);
    BehindShift(2, s[..2], [0, 1], s[2..], 2);
  }

  lemma BehindShift(k: nat, text: string, at: seq<nat>, s: string, off: nat)
    ensures var b, r := Behind(k, text, at, ReadBody(s, off)), ReadBody(s, 0);
            b.len == k + r.len && b.text == text + r.text && (text == "" ==> b.text == r.text) && b.end == r.end
  {
    hide ReadBody;
    BodyShift(s, off);
  }

  lemma BlanksStop(y: string, v: string)
    requires NoBlankAhead(v)
    ensures Blanks(y + v) == Blanks(y)
  {
    var s, k := y + v, Blanks(y);
    BlanksAre(s, k);
  }

  lemma BlanksAre(s: string, k: nat)
    requires k <= |s| && (forall j :: 0 <= j < k ==> IsBlank(s[j])) && (k < |s| ==> !IsBlank(s[k]))
    ensures Blanks(s) == k
  {
  }

  lemma Drop(y: string, v: string, k: nat)
    requires k <= |y|
    ensures (y + v)[k..] == y[k..] + v && (y + v)[..k] == y[..k]
  {
  }

  // ---- tokens before the literal ----

  /** Two texts that a literal could be followed by without changing any token before its quote. */
  ghost predicate Alike(z: string, z': string) {
    z' != "" && (z'[0] == '\\' || (z != "" && z'[0] == z[0]))
  }

  lemma LineStable(p: string, q: string, q': string)
    requires LineLen(p + q) < |p|
    ensures LineLen(p + q') == LineLen(p + q)
  {
    var k := LineLen(p + q);
    assert (p + q)[k] == '\n';
    assert forall j :: 0 <= j <= k ==> (p + q')[j] == (p + q)[j];
    LineLenIs(p + q', k);
  }

  lemma LineLenIs(x: string, k: nat)
    requires k < |x| && x[k] == '\n' && forall j :: 0 <= j < k ==> x[j] != '\n'
    ensures LineLen(x) == k
  {
  }

  lemma BlockHead(s: string, d: nat)
    requires s != ""
    ensures if "/*" <= s then BlockLen(s, d) == 2 + BlockLen(s[2..], d + 1)
            else if "*/" <= s then BlockLen(s, d) == if d <= 1 then 2 else 2 + BlockLen(s[2..], d - 1)
            else BlockLen(s, d) == 1 + BlockLen(s[1..], d)
  {
  }

  /** A comment that ends before the quote ends there whatever is behind the quote. */
  lemma {:induction false} BlockStable(p: string, z: string, z': string, d: nat)
    requires BlockLen(p + ("\"" + z), d) <= |p|
    ensures BlockLen(p + ("\"" + z'), d) == BlockLen(p + ("\"" + z), d)
    decreases |p|
  {
    hide BlockLen;
    if |p| > 0 {
      var q, q' := "\"" + z, "\"" + z';
      BlockHead(p + q, d);
      BlockHead(p + q', d);
      MarksStay(p, q, q', "/*");
      MarksStay(p, q, q', "*/");
      if "/*" <= p + q {
        Drop(p, q, 2);
        Drop(p, q', 2);
        BlockStable(p[2..], z, z', d + 1);
      } else if "*/" <= p + q {
        Drop(p, q, 2);
        Drop(p, q', 2);
        if d > 1 {
          BlockStable(p[2..], z, z', d - 1);
        }
      } else {
        Drop(p, q, 1);
        Drop(p, q', 1);
        BlockStable(p[1..], z, z', d);
      }
    }
  }

  lemma MarksStay(p: string, q: string, q': string, mark: string)
    requires |p| >= 1 && |mark| == 2 && q != "" && q' != "" && q[0] == q'[0] == '"' && mark[1] != '"'
    ensures mark <= p + q <==> mark <= p + q'
    ensures mark <= p + q ==> |p| >= 2
  {
    var s, s' := p + q, p + q';
    assert s[0] == s'[0] == p[0];
    assert s[1] == s'[1] == if |p| == 1 then '"' else p[1];
  }

  lemma CharStable(a: string, z: string, z': string)
    requires a != "" && a[0] == '\'' && Alike(z, z')
    requires CharLitLen(a + ("\"" + z)) <= |a|
    ensures CharLitLen(a + ("\"" + z')) == CharLitLen(a + ("\"" + z))
  {
    var s, s' := a + ("\"" + z), a + ("\"" + z');
    assert forall k :: 0 <= k <= |a| ==> s[k] == s'[k];
    assert |s'| > |a| + 1 && s'[|a| + 1] == z'[0];
    assert z != "" ==> s[|a| + 1] == z[0];
  }

  lemma PrefixStable(a: string, q: string, q': string)
    requires a != "" && q != "" && q' != "" && q[0] == q'[0] == '"'
    ensures RawPrefix(a + q) == RawPrefix(a + q') <= |a|
  {
    MarksStay(a, q, q', "br");
    assert (a + q)[0] == (a + q')[0] == a[0];
  }

  lemma RawStable(a: string, z: string, z': string)
    requires a != ""
    ensures RawOpens(a + ("\"" + z)) <==> RawOpens(a + ("\"" + z'))
    ensures RawOpens(a + ("\"" + z)) ==> RawLen(a + ("\"" + z)) <= |a| ==>
              RawLen(a + ("\"" + z')) == RawLen(a + ("\"" + z))
  {
    hide Find, Hashes, Repeat;
    var q, q' := "\"" + z, "\"" + z';
    var s, s' := a + q, a + q';
    PrefixStable(a, q, q');
    hide RawPrefix;
    var p := RawPrefix(s);
    if p > 0 {
      Drop(a, q, p);
      Drop(a, q', p);
      var h := Hashes(a[p..]);
      HashesStop(a[p..], z);
      HashesStop(a[p..], z');
      if p + h + 1 <= |a| {
        RawLenStable(a, q, q', p + h + 1, h);
      }
    }
  }

  lemma RawLenStable(a: string, q: string, q': string, b: nat, h: nat)
    requires b <= |a|
    ensures Find((a + q)[b..], RawQuote(h)) + b + h + 1 <= |a| ==>
              Find((a + q')[b..], RawQuote(h)) == Find((a + q)[b..], RawQuote(h))
  {
    hide Find, Repeat;
    Drop(a, q, b);
    Drop(a, q', b);
    if Find(a[b..] + q, RawQuote(h)) + b + h + 1 <= |a| {
      FindStable(a[b..], q, q', RawQuote(h));
    }
  }

  lemma HashesStop(a: string, z: string)
    ensures Hashes(a + ("\"" + z)) == Hashes(a)
    ensures Hashes(a) < |a| ==> (a + ("\"" + z))[Hashes(a)] == a[Hashes(a)]
    ensures Hashes(a) == |a| ==> (a + ("\"" + z))[Hashes(a)] == '"'
  {
    var s, h := a + ("\"" + z), Hashes(a);
    assert h < |a| ==> s[h] == a[h];
    assert h == |a| ==> s[h] == '"';
    HashesAre(s, h);
  }

  lemma HashesAre(x: string, h: nat)
    requires h <= |x| && (forall k :: 0 <= k < h ==> x[k] == '#') && (h < |x| ==> x[h] != '#')
    ensures Hashes(x) == h
  {
  }

  lemma PrefixMoves(s: string, s': string, n: nat, j: nat, pat: string)
    requires n <= |s| && n <= |s'| && s[..n] == s'[..n] && j + |pat| <= n
    ensures pat <= s[j..] <==> pat <= s'[j..]
  {
    assert s[j..][..|pat|] == s[..n][j..j + |pat|];
    assert s'[j..][..|pat|] == s'[..n][j..j + |pat|];
  }

  lemma FindStable(p: string, q: string, q': string, pat: string)
    requires pat != "" && Find(p + q, pat) + |pat| <= |p|
    ensures Find(p + q', pat) == Find(p + q, pat)
  {
    hide Find;
    var s, s' := p + q, p + q';
    var k := Find(s, pat);
    Split(p, q);
    Split(p, q');
    forall j | 0 <= j <= k ensures pat <= s'[j..] <==> pat <= s[j..] {
      PrefixMoves(s, s', |p|, j, pat);
    }
    FindIs(s', pat, k);
  }

  lemma FixedHeads(p: string, z: string, z': string)
    ensures var (q, q') := ("\"" + z, "\"" + z');
            var (s, s') := (p + q, p + q');
            s[0] == s'[0] && (p == "" ==> s[0] == '"') &&
            (p != "" ==> s[1..] == p[1..] + q && s'[1..] == p[1..] + q' && s[1] == s'[1] && (|p| == 1 ==>
                s[1] == '"')) &&
            (|p| > 1 ==> s[..2] == s'[..2] == p[..2] && s[2..] == p[2..] + q && s'[2..] == p[2..] + q')
  {
    var q, q' := "\"" + z, "\"" + z';
    if p != "" {
      Drop(p, q, 1);
      Drop(p, q', 1);
    }
    if |p| > 1 {
      Drop(p, q, 2);
      Drop(p, q', 2);
    }
  }

  /** A body that closes before the quote closes there whatever is behind the quote. */
  lemma {:induction false} BodyStable(p: string, z: string, z': string)
    requires ReadBody(p + ("\"" + z), 0).len <= |p|
    ensures var b, b' := ReadBody(p + ("\"" + z), 0), ReadBody(p + ("\"" + z'), 0);
            b.len == b'.len && b.text == b'.text && b.end == b'.end
    decreases |p|
  {
    hide ReadBody, Blanks;
    var q, q' := "\"" + z, "\"" + z';
    var s, s' := p + q, p + q';
    FixedHeads(p, z, z');
    if s[0] == '"' {
      QuoteOpens(s, 0);
      QuoteOpens(s', 0);
    } else if s[0] != '\\' {
      ReadsPlain(s);
      ReadsPlain(s');
      BodyStable(p[1..], z, z');
    } else if s[1] == '\n' {
      var k := 2 + Blanks(p[2..]);
      BlanksStop(p[2..], q);
      BlanksStop(p[2..], q');
      ReadsContinuation(s, k);
      ReadsContinuation(s', k);
      Drop(p, q, k);
      Drop(p, q', k);
      BodyStable(p[k..], z, z');
    } else {
      ReadsEscape(s);
      ReadsEscape(s');
      if |p| > 1 {
        BodyStable(p[2..], z, z');
      }
    }
  }

  /** No token that ends before the quote depends on what is behind the quote. */
  lemma TokenStable(prev: char, a: string, z: string, z': string)
    requires a != "" && Alike(z, z') && TokenLen(prev, a + ("\"" + z)) <= |a|
    ensures TokenLen(prev, a + ("\"" + z')) == TokenLen(prev, a + ("\"" + z))
    ensures Texts(HeadLexeme(prev, a + ("\"" + z), 0)) == Texts(HeadLexeme(prev, a + ("\"" + z'), 0))
  {
    hide TokenLen, LineLen, BlockLen, CharLitLen, RawOpens, RawLen, ReadBody, Alike;
    var q, q' := "\"" + z, "\"" + z';
    var s, s' := a + q, a + q';
    assert s[0] == s'[0] == a[0];
    MarksStay(a, q, q', "//");
    MarksStay(a, q, q', "/*");
    RawStable(a, z, z');
    if a[0] == '\n' {
      TokenNewline(prev, s);
      TokenNewline(prev, s');
    } else if "//" <= s {
      TokenLine(prev, s);
      TokenLine(prev, s');
      if LineLen(s) < |a| {
        LineStable(a, q, q');
      } else {
        LineNotAt(s, |a|);
      }
    } else if "/*" <= s {
      TokenBlock(prev, s);
      TokenBlock(prev, s');
      Drop(a, q, 2);
      Drop(a, q', 2);
      BlockStable(a[2..], z, z', 1);
    } else if a[0] == '\'' {
      TokenTick(prev, s);
      TokenTick(prev, s');
      CharStable(a, z, z');
    } else if RawOpens(s) && !IsWord(prev) {
      TokenRaw(prev, s);
      TokenRaw(prev, s');
    } else if OpensLiteral(prev, s) {
      TokenLiteral(prev, s);
      TokenLiteral(prev, s');
      Drop(a, q, 1);
      Drop(a, q', 1);
      BodyStable(a[1..], z, z');
      BodyShift(s[1..], 1);
      BodyShift(s'[1..], 1);
    } else {
      TokenPlain(prev, s);
      TokenPlain(prev, s');
    }
  }

  lemma LineNotAt(s: string, k: nat)
    requires k < |s| && s[k] == '"'
    ensures LineLen(s) != k
  {
  }

  // ---- the splice ----

  /** Offset `p` of `t` lies inside a literal of `t`, not within an escape, and in
      front of a character that is no blank. */
  ghost predicate Spliceable(t: string, p: nat) {
    p <= |t| && NoBlankAhead(t[p..]) &&
    exists l :: l in Lexemes(t) && l.open < p && OpenBody(t[l.open + 1..p])
  }

  function Spliced(t: string, p: nat, indent: string): string
    requires p <= |t|
  {
    t[..p] + ("\\\n" + indent + t[p..])
  }

  lemma HeadOpens(prev: char, s: string, off: nat, l: Lexeme)
    requires l in HeadLexeme(prev, s, off)
    ensures l.open == off && OpensLiteral(prev, s)
  {
  }

  lemma {:induction false} OpensAtQuote(prev: char, s: string, off: nat, l: Lexeme)
    requires l in Lex(prev, s, off)
    ensures off <= l.open < off + |s| && s[l.open - off] == '"'
    decreases |s|
  {
    hide TokenLen, HeadLexeme;
    if s != "" {
      LexSplits(prev, s, off);
      hide Lex;
      var n := TokenLen(prev, s);
      if l in HeadLexeme(prev, s, off) {
        HeadReads(prev, s, off, l);
      } else {
        OpensAtQuote(s[n - 1], s[n..], off + n, l);
      }
    }
  }
}
