/** The scanner itself: an index loop that overwrites a copy of the text
    (scripts/check-test-env-globals.py, `strip_noise`).  Each branch of the loop
    is a method proved to consume and blank the token the specification reads. */
module NoiseScan {
  import opened Common
  import opened RustSource
  import opened NoiseStripper

  /** `out` holds the stripped text before `i` and the original from `i` on. */
  ghost predicate Progress(t: string, o: string, i: nat) {
    |o| == |t| && i <= |t| && o[..i] + Stripped(t[i..]) == Stripped(t) && o[i..] == t[i..]
  }

  /** `o` with the token at `i` replaced by what is left of it. */
  ghost function Replaced(t: string, o: string, i: nat): string
    requires |o| == |t| && i < |t|
  {
    o[..i] + Left(t[i..], Head(t[i..])) + t[i + Head(t[i..]).len..]
  }

  lemma Advance(t: string, o: string, i: nat)
    requires i < |t| && Progress(t, o, i)
    ensures Progress(t, Replaced(t, o, i), i + Head(t[i..]).len)
  {
    hide Head, Left;
    var s := t[i..];
    var k := Head(s);
    var x := Replaced(t, o, i);
    assert s[k.len..] == t[i + k.len..];
    assert x[..i + k.len] == o[..i] + Left(s, k);
    assert Stripped(s) == Left(s, k) + Stripped(s[k.len..]);
    assert o[..i] + Left(s, k) + Stripped(s[k.len..]) == o[..i] + (Left(s, k) + Stripped(s[k.len..]));
  }

  /** `for x in range(from, to)`: overwrite everything but newlines. */
  method BlankRange(t: string, out: array<char>, from: nat, to: nat)
    requires out.Length == |t| && from <= to <= |t| && out[from..] == t[from..]
    modifies out
    ensures out[..] == old(out[..from]) + Blanked(t[from..to]) + t[to..]
  {
    for x := from to to
      invariant out[..from] == old(out[..from]) && out[x..] == t[x..]
      invariant forall k :: from <= k < x ==> out[k] == Blanked(t[from..to])[k - from]
    {
      if t[x] != '\n' {
        out[x] := ' ';
      }
    }
    assert out[from..to] == Blanked(t[from..to]);
    assert out[..] == out[..from] + out[from..to] + out[to..];
  }

  lemma LineLenIs(x: string, k: nat)
    requires k <= LineLen(x) && (k < |x| ==> x[k] == '\n')
    ensures LineLen(x) == k
  {
  }

  lemma HashesIs(x: string, h: nat)
    requires h <= |x| && forall k :: 0 <= k < h ==> x[k] == '#'
    requires h < |x| ==> x[h] != '#'
    ensures Hashes(x) == h
  {
  }

  method LineComment(t: string, out: array<char>, s: nat) returns (i: nat)
    requires out.Length == |t| && s < |t| && out[s..] == t[s..] && "//" <= t[s..]
    modifies out
    ensures i == s + Head(t[s..]).len
    ensures out[..] == Replaced(t, old(out[..]), s)
  {
    ghost var o := out[..];
    i := s;
    while i < |t| && t[i] != '\n'
      invariant s <= i <= |t| && i - s <= LineLen(t[s..])
      invariant out[..s] == o[..s] && out[i..] == t[i..]
      invariant forall k :: s <= k < i ==> out[k] == ' '
    {
      out[i] := ' ';
      i := i + 1;
    }
    LineLenIs(t[s..], i - s);
    assert out[..] == out[..s] + out[s..i] + out[i..];
    assert out[s..i] == Left(t[s..], Head(t[s..]));
  }

  ghost predicate BlankedBetween(t: string, o: string, out: string, s: nat, i: nat) {
    |o| == |t| == |out| && s <= i <= |t| && out[..s] == o[..s] && out[i..] == t[i..] && out[s..i] == Blanked(t[s..i])
  }

  lemma BlankedNothing(t: string, o: string, s: nat)
    requires |o| == |t| && s <= |t| && o[s..] == t[s..]
    ensures BlankedBetween(t, o, o, s, s)
  {
  }

  method BlankAt(t: string, out: array<char>, i: nat, ghost o: string, ghost s: nat)
    requires i < |t| && out.Length == |t| && BlankedBetween(t, o, out[..], s, i)
    modifies out
    ensures BlankedBetween(t, o, out[..], s, i + 1)
  {
    if t[i] != '\n' {
      out[i] := ' ';
    }
    assert out[s..i] == old(out[..])[s..i];
    assert out[..][i + 1..] == old(out[..])[i..][1..];
    assert out[..][s..i + 1] == out[..][s..i] + [out[i]];
    assert t[s..i + 1] == t[s..i] + [t[i]];
    assert Blanked(t[s..i + 1]) == Blanked(t[s..i]) + Blanked([t[i]]);
  }

  method BlockComment(t: string, out: array<char>, s: nat) returns (i: nat)
    requires out.Length == |t| && s < |t| && out[s..] == t[s..] && "/*" <= t[s..]
    modifies out
    ensures i == s + Head(t[s..]).len
    ensures out[..] == Replaced(t, old(out[..]), s)
  {
    hide BlockLen, Head, Replaced, Blanked;
    ghost var o := out[..];
    i := s;
    var d := 0;
    assert t[s] == '/' && t[s + 1] == '*';
    BlankedNothing(t, out[..], s);
    while i < |t|
      invariant s <= i <= |t| && d >= 0 && (d == 0 ==> i == s)
      invariant BlockLen(t[s..], 0) == i - s + BlockLen(t[i..], d)
      invariant BlankedBetween(t, o, out[..], s, i)
    {
      BlockTurn(t, i, d);
      if t[i] == '/' && i + 1 < |t| && t[i + 1] == '*' {
        d := d + 1;
        BlankAt(t, out, i, o, s);
        BlankAt(t, out, i + 1, o, s);
        i := i + 2;
        continue;
      }
      if t[i] == '*' && i + 1 < |t| && t[i + 1] == '/' {
        d := d - 1;
        BlankAt(t, out, i, o, s);
        BlankAt(t, out, i + 1, o, s);
        i := i + 2;
        if d == 0 {
          break;
        }
        continue;
      }
      BlankAt(t, out, i, o, s);
      i := i + 1;
    }
    BlockBlanked(t, o, out[..], s, i);
  }

  lemma BlockBlanked(t: string, o: string, out: string, s: nat, i: nat)
    requires s < |t| && "/*" <= t[s..] && BlankedBetween(t, o, out, s, i)
    requires i - s == BlockLen(t[s..], 0)
    ensures i == s + Head(t[s..]).len && out == Replaced(t, o, s)
  {
    var h := Head(t[s..]);
    assert t[s..][1] == '*';
    assert h == Token(i - s, 0, i - s);
    hide Head, BlockLen;
    assert t[s..][..i - s] == t[s..i];
    assert Left(t[s..], h) == Blanked(t[s..i]);
    assert out == out[..s] + out[s..i] + out[i..];
  }

  method RawString(t: string, out: array<char>, s: nat) returns (i: nat)
    requires out.Length == |t| && s < |t| && out[s..] == t[s..] && t[s] == 'r'
    modifies out
    ensures Min(i, |t|) == s + Head(t[s..]).len
    ensures out[..] == Replaced(t, old(out[..]), s)
  {
    hide Find, Hashes, Head, Replaced, RawMark, Blanked, Repeat;
    ghost var o := out[..];
    var n := |t|;
    var j := s + 1;
    var h := 0;
    while j < n && t[j] == '#'
      invariant j == s + 1 + h && j <= n
      invariant forall k :: s < k < j ==> t[k] == '#'
    {
      h := h + 1;
      j := j + 1;
    }
    HashesAre(t, s + 1, h);
    if j < n && t[j] == '"' {
      var end := RawQuote(h);
      var k := j + 1 + Find(t[j + 1..], end);
      assert out[j + 1..] == out[s..][j + 1 - s..] == t[j + 1..];
      BlankRange(t, out, j + 1, k);
      i := k + |end|;
      RawBlanked(t, o, out[..], s, h, k);
    } else {
      i := s + 1;
      NotRaw(t, o, s);
    }
  }

  lemma NotRaw(t: string, o: string, s: nat)
    requires |o| == |t| && s < |t| && o[s..] == t[s..] && t[s] == 'r' && !RawMark(t[s + 1..])
    ensures Head(t[s..]).len == 1 && o == Replaced(t, o, s)
  {
    var x := t[s..];
    assert x[1..] == t[s + 1..];
    assert Head(x) == Token(1, 0, 0);
    assert o[s..][..0] == t[s..s];
    RangeReplaced(t, o, o, s, Head(x));
  }

  lemma HashesAre(t: string, j: nat, h: nat)
    requires j + h <= |t| && (forall k :: j <= k < j + h ==> t[k] == '#')
    requires j + h < |t| ==> t[j + h] != '#'
    ensures Hashes(t[j..]) == h
    ensures RawMark(t[j..]) <==> j + h < |t| && t[j + h] == '"'
  {
    HashesIs(t[j..], h);
  }

  lemma RawBlanked(t: string, o: string, out: string, s: nat, h: nat, k: nat)
    requires |o| == |t| && s < |t| && o[s..] == t[s..] && t[s] == 'r' && RawMark(t[s + 1..])
    requires h == Hashes(t[s + 1..]) && k == s + h + 2 + Find(t[s + h + 2..], RawQuote(h))
    requires out == o[..s + h + 2] + Blanked(t[s + h + 2..k]) + t[k..]
    ensures Min(k + h + 1, |t|) == s + Head(t[s..]).len && out == Replaced(t, o, s)
  {
    hide Find, Head, Replaced, Blanked, Repeat;
    var x := t[s..];
    assert x[1..] == t[s + 1..] && x[1..][h + 1..] == t[s + h + 2..];
    HeadRawAt(x, x[1..], h);
    RangeReplaced(t, o, out, s, Head(x));
  }

  lemma RangeReplaced(t: string, o: string, out: string, s: nat, m: Token)
    requires |o| == |t| && s < |t| && o[s..] == t[s..] && Fits(m, t[s..]) && m == Head(t[s..])
    requires out == o[..s + m.from] + Blanked(t[s + m.from..s + m.to]) + t[s + m.to..]
    ensures out == Replaced(t, o, s)
  {
    hide Head;
    var x := t[s..];
    assert o[..s + m.from] == o[..s] + x[..m.from] by {
      assert o[s..][..m.from] == o[s..s + m.from];
    }
    assert t[s + m.from..s + m.to] == x[m.from..m.to];
    assert t[s + m.to..] == x[m.to..m.len] + t[s + m.len..];
  }

  method QuotedString(t: string, out: array<char>, s: nat) returns (i: nat)
    requires out.Length == |t| && s < |t| && out[s..] == t[s..] && t[s] == '"'
    modifies out
    ensures Min(i, |t|) == s + Head(t[s..]).len
    ensures out[..] == Replaced(t, old(out[..]), s)
  {
    hide QuoteAt, Collected, Head, Replaced, IsIdent, Blanked;
    ghost var o := out[..];
    var n := |t|;
    var j := s + 1;
    var buf := "";
    while j < n
      invariant s + 1 <= j <= n + 1
      invariant Min(j, n) + QuoteAt(t[Min(j, n)..]) == s + 1 + QuoteAt(t[s + 1..])
      invariant buf + Collected(t[Min(j, n)..]) == Collected(t[s + 1..])
      invariant out[..] == o
      decreases n - j
    {
      QuoteTurn(t, j);
      if t[j] == '\\' {
        j := j + 2;
        continue;
      }
      if t[j] == '"' {
        break;
      }
      assert buf + Collected(t[j..]) == buf + [t[j]] + Collected(t[j + 1..]);
      buf := buf + [t[j]];
      j := j + 1;
    }
    if j < n {
      QuoteTurn(t, j);
    } else {
      QuoteEnds(t[n..]);
    }
    assert buf == Collected(t[s + 1..]);
    assert out[..] == o;
    assert out[s + 1..] == out[s..][1..] == t[s + 1..];
    if !IsIdent(buf) {
      BlankRange(t, out, s + 1, Min(j, n));
    }
    i := j + 1;
    QuotedBlanked(t, o, out[..], s);
  }

  /** One turn of the body loop, read off the specification. */
  lemma QuoteTurn(t: string, j: nat)
    requires j < |t|
    ensures if t[j] == '"' then QuoteAt(t[j..]) == 0 && Collected(t[j..]) == ""
            else if t[j] == '\\' then
              var m := Min(j + 2, |t|);
              QuoteAt(t[j..]) == m - j + QuoteAt(t[m..]) && Collected(t[j..]) == Collected(t[m..])
            else QuoteAt(t[j..]) == 1 + QuoteAt(t[j + 1..]) && Collected(t[j..]) == [t[j]] + Collected(t[j + 1..])
  {
    var s := t[j..];
    assert s[1..] == t[j + 1..];
    if j + 2 <= |t| {
      assert s[2..] == t[j + 2..];
    }
  }

  lemma QuoteEnds(s: string)
    requires s == ""
    ensures QuoteAt(s) == 0 && Collected(s) == ""
  {
  }

  lemma QuotedBlanked(t: string, o: string, out: string, s: nat)
    requires |o| == |t| && s < |t| && o[s..] == t[s..] && t[s] == '"'
    requires var k := s + 1 + QuoteAt(t[s + 1..]);
             out == if IsIdent(Collected(t[s + 1..])) then o else o[..s + 1] + Blanked(t[s + 1..k]) + t[k..]
    ensures Min(s + 2 + QuoteAt(t[s + 1..]), |t|) == s + Head(t[s..]).len && out == Replaced(t, o, s)
  {
    hide Head, QuoteAt, Collected, IsIdent, Replaced;
    var x := t[s..];
    HeadQuoted(x);
    assert x[1..] == t[s + 1..];
    var m := Head(x);
    if IsIdent(Collected(x[1..])) {
      assert o == o[..s + 1] + Blanked(t[s + 1..s + 1]) + t[s + 1..] by {
        assert o[s..][1..] == t[s..][1..];
      }
    }
    RangeReplaced(t, o, out, s, m);
  }

  method StripNoise(t: string) returns (r: string)
    ensures r == Stripped(t)
  {
    hide Head, Replaced, Left, Stripped;
    var n := |t|;
    var out := new char[n](k requires 0 <= k < n => t[k]);
    assert out[..] == t;
    var i := 0;
    assert t[0..] == t;
    while i < n
      invariant Progress(t, out[..], Min(i, n))
      decreases n - i
    {
      var c := t[i];
      Advance(t, out[..], i);
      assert out[i..] == out[..][i..];
      if c == '/' && i + 1 < n && t[i + 1] == '/' {
        i := LineComment(t, out, i);
      } else if c == '/' && i + 1 < n && t[i + 1] == '*' {
        i := BlockComment(t, out, i);
      } else if c == 'r' && i + 1 < n && (t[i + 1] == '"' || t[i + 1] == '#') {
        i := RawString(t, out, i);
      } else if c == '"' {
        i := QuotedString(t, out, i);
      } else {
        PlainToken(t, out[..], i);
        i := i + 1;
      }
    }
    r := out[..];
    assert t[n..] == "";
    StripEmpty();
  }

  lemma StripEmpty()
    ensures Stripped("") == ""
  {
  }

  lemma PlainToken(t: string, o: string, i: nat)
    requires |o| == |t| && i < |t| && o[i..] == t[i..] && t[i] != '"'
    requires !(t[i] == '/' && i + 1 < |t| && (t[i + 1] == '/' || t[i + 1] == '*'))
    requires !(t[i] == 'r' && i + 1 < |t| && (t[i + 1] == '"' || t[i + 1] == '#'))
    ensures Replaced(t, o, i) == o && Head(t[i..]).len == 1
  {
    var s := t[i..];
    assert s[1..] == t[i + 1..];
    assert Head(s) == Token(1, 0, 0);
    hide Head;
    assert Left(s, Head(s)) == s[..1];
    assert o == o[..i] + s[..1] + t[i + 1..];
  }
}
