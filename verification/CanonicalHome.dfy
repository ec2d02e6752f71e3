/** When canonicalising twice is canonicalising once, home path included
    (scripts/portability-migrate-state.py, `canonical_config`). */
module CanonicalHome {
  import opened Common
  import opened StringOrder
  import opened CanonicalConfig
  import opened CanonicalProof

  const MARK := "<HOME>"

  /** The whole function. */
  function Whole(raw: string, home: string, root: string): string {
    Canonical(HomeReplaced(raw, home, root))
  }

  ghost predicate Occurs(pat: string, s: string) {
    exists k :: 0 <= k <= |s| && pat <= s[k..]
  }

  /** A path that is not empty and holds neither an angle bracket nor a newline. */
  predicate PlainPath(p: string) {
    p != "" && '<' !in p && '>' !in p && '\n' !in p
  }

  // ---- replacing what does not occur ----

  lemma OccursLater(pat: string, s: string, k: nat)
    requires k <= |s| && Occurs(pat, s[k..])
    ensures Occurs(pat, s)
  {
    var j :| 0 <= j <= |s[k..]| && pat <= s[k..][j..];
    Tail(s, k, j);
    assert pat <= s[k + j..];
  }

  lemma {:induction false} NothingToReplace(s: string, pat: string)
    requires pat != "" && !Occurs(pat, s)
    ensures Replace(s, pat, MARK) == s
  {
    if s != "" {
      assert s[0..] == s;
      if Occurs(pat, s[1..]) {
        OccursLater(pat, s, 1);
      }
      NothingToReplace(s[1..], pat);
    }
  }

  // ---- what a replaced text holds ----

  /** An occurrence of a bracket-free text lies on one side of a bracket. */
  lemma OneSide(pat: string, a: string, c: char, b: string)
    requires pat != "" && c !in pat && Occurs(pat, a + [c] + b)
    ensures Occurs(pat, a) || Occurs(pat, b)
  {
    var s := a + [c] + b;
    var k :| 0 <= k <= |s| && pat <= s[k..];
    PrefixAt(s, k, pat);
    assert s[|a|] == c;
    forall n | k <= n < k + |pat| ensures s[n] in pat {
      assert s[k..k + |pat|][n - k] == s[n];
    }
    if k + |pat| <= |a| {
      assert a[k..][..|pat|] == s[k..k + |pat|];
      assert pat <= a[k..];
    } else if k > |a| {
      assert s[k..] == b[k - |a| - 1..];
      assert pat <= b[k - |a| - 1..];
    }
  }

  /** A plain text outside the mark lies in front of an inserted mark or behind it. */
  lemma AroundMark(q: string, b: string)
    requires PlainPath(q) && !Occurs(q, "HOME") && Occurs(q, MARK + b)
    ensures Occurs(q, b)
  {
    assert MARK + b == "" + ['<'] + ("HOME" + ['>'] + b);
    OneSide(q, "", '<', "HOME" + ['>'] + b);
    assert !Occurs(q, "");
    OneSide(q, "HOME", '>', b);
  }

  /** `q` is not in `s` behind an initial part, nor is `pat` replaced in it: the initial part
      and what follows, up to the first mark, are text of `s`. */
  lemma {:induction false} HeadKept(s: string, pat: string, q: string)
    requires pat != "" && PlainPath(q) && q <= Replace(s, pat, MARK)
    ensures q <= s
    decreases |s|
  {
    assert q[0] in q;
    if s != "" && !(pat <= s) && |q| > 1 {
      var r := Replace(s[1..], pat, MARK);
      assert Replace(s, pat, MARK) == [s[0]] + r;
      assert q[1..] <= r;
      HeadKept(s[1..], pat, q[1..]);
    }
  }

  /** A plain text outside the mark is in the result only if it was in the source. */
  lemma {:induction false} OnlyFromSource(s: string, pat: string, q: string)
    requires pat != "" && PlainPath(q) && !Occurs(q, "HOME") && Occurs(q, Replace(s, pat, MARK))
    ensures Occurs(q, s)
    decreases |s|
  {
    var r := Replace(s, pat, MARK);
    if s == "" {
    } else if pat <= s {
      AroundMark(q, Replace(s[|pat|..], pat, MARK));
      OnlyFromSource(s[|pat|..], pat, q);
      OccursLater(q, s, |pat|);
    } else {
      var k :| 0 <= k <= |r| && q <= r[k..];
      if k == 0 {
        assert r[0..] == r && s[0..] == s;
        HeadKept(s, pat, q);
      } else {
        assert r[k..] == Replace(s[1..], pat, MARK)[k - 1..];
        OnlyFromSource(s[1..], pat, q);
        OccursLater(q, s, 1);
      }
    }
  }

  /** Nothing of the pattern is left, unless the mark itself spells it. */
  lemma {:induction false} AllReplaced(s: string, pat: string)
    requires PlainPath(pat) && !Occurs(pat, "HOME")
    ensures !Occurs(pat, Replace(s, pat, MARK))
    decreases |s|
  {
    var r := Replace(s, pat, MARK);
    if s == "" {
    } else if pat <= s {
      AllReplaced(s[|pat|..], pat);
      if Occurs(pat, r) {
        AroundMark(pat, Replace(s[|pat|..], pat, MARK));
      }
    } else {
      AllReplaced(s[1..], pat);
      assert r[0..] == r;
      forall k | 0 < k <= |r| ensures !(pat <= r[k..]) {
        assert r[k..] == Replace(s[1..], pat, MARK)[k - 1..];
      }
      if pat <= r {
        HeadKept(s, pat, pat);
      }
    }
  }

  // ---- what the canonical form holds ----

  lemma OccursVia(a: string, b: string, c: string)
    requires Occurs(a, b) && Occurs(b, c)
    ensures Occurs(a, c)
  {
    var k :| 0 <= k <= |c| && b <= c[k..];
    var j :| 0 <= j <= |b| && a <= b[j..];
    Tail(c, k, j);
    assert c[k..][j..][..|a|] == b[j..][..|a|] == a;
    assert a <= c[k + j..];
  }

  lemma OccursItself(s: string)
    ensures Occurs(s, s)
  {
    assert s <= s[0..];
  }

  lemma OccursFront(pat: string, s: string)
    requires pat <= s
    ensures Occurs(pat, s)
  {
    assert pat <= s[0..];
  }

  lemma StripOccurs(s: string)
    ensures Occurs(Strip(s), s)
  {
    StripLeftSuffix(s);
    var k :| 0 <= k <= |s| && StripLeft(s) == s[k..];
    assert Strip(s) <= s[k..];
  }

  lemma {:induction false} LinesOccur(s: string, x: string)
    requires x in SplitLines(s)
    ensures Occurs(x, s)
    decreases |s|
  {
    if s != "" {
      var k, n := SplitTurn(s);
      hide SplitLines, Occurs;
      OccursFront(s[..k], s);
      if n <= |s| && x in SplitLines(s[n..]) {
        LinesOccur(s[n..], x);
        OccursLater(x, s, n);
      }
    }
  }

  /** Every name and every line comes out of the text. */
  ghost predicate From(secs: Sections, text: string) {
    forall n :: n in secs.lines ==>
      Occurs(n, text) && forall k :: 0 <= k < |secs.lines[n]| ==> Occurs(secs.lines[n][k], text)
  }

  lemma TouchFrom(secs: Sections, name: string, text: string)
    requires From(secs, text) && Occurs(name, text)
    ensures From(Touch(secs, name), text)
  {
    hide Occurs;
  }

  lemma AppendFrom(secs: Sections, name: string, line: string, text: string)
    requires From(secs, text) && Occurs(name, text) && Occurs(line, text)
    ensures From(Append(secs, name, line), text)
  {
    hide Occurs, Touch;
    TouchFrom(secs, name, text);
  }

  lemma {:induction false} LoadFrom(st: State, ls: seq<string>, text: string)
    requires From(st.secs, text) && Occurs(st.current, text)
    requires forall k :: 0 <= k < |ls| ==> Occurs(ls[k], text)
    ensures From(Load(st, ls).secs, text)
    decreases |ls|
  {
    hide Occurs, From, Strip, Touch, Append;
    if ls != [] {
      var s := Strip(ls[0]);
      StripOccurs(ls[0]);
      OccursVia(s, ls[0], text);
      if IsHeader(s) {
        TouchFrom(st.secs, s, text);
      } else if s != "" {
        AppendFrom(st.secs, st.current, s, text);
      }
      LoadFrom(LoadLine(st, ls[0]), ls[1..], text);
    }
  }

  lemma SectionsFrom(text: string)
    ensures From(SectionsOf(text), text)
  {
    hide SplitLines, Load;
    forall k | 0 <= k < |SplitLines(text)| ensures Occurs(SplitLines(text)[k], text) {
      LinesOccur(text, SplitLines(text)[k]);
    }
    OccursFront("", text);
    LoadFrom(START, SplitLines(text), text);
  }

  lemma {:induction false} InSomeLine(q: string, ls: seq<string>) returns (x: string)
    requires q != "" && '\n' !in q && Occurs(q, JoinLines(ls))
    ensures x in ls && Occurs(q, x)
    decreases |ls|
  {
    if |ls| <= 1 {
      assert JoinLines(ls) == if ls == [] then "" else ls[0];
      assert !Occurs(q, "");
      x := ls[0];
    } else {
      hide Occurs;
      assert JoinLines(ls) == ls[0] + ['\n'] + JoinLines(ls[1..]);
      OneSide(q, ls[0], '\n', JoinLines(ls[1..]));
      if Occurs(q, ls[0]) {
        x := ls[0];
      } else {
        x := InSomeLine(q, ls[1..]);
      }
    }
  }

  lemma {:induction false} FlatLines(secs: Sections, names: seq<string>, x: string)
    requires x in Flat(secs, names)
    ensures x == "" || x in names || exists n :: n in names && x in Section(secs, n)
    decreases |names|
  {
    if names != [] {
      hide Section, Sort;
      SortHolds(Section(secs, names[0]));
      if x in Flat(secs, names[1..]) {
        FlatLines(secs, names[1..], x);
      }
    }
  }

  /** A plain text in the canonical form was in the text. */
  lemma FromText(q: string, text: string)
    requires PlainPath(q) && Occurs(q, Canonical(text))
    ensures Occurs(q, text)
  {
    hide Occurs, Sort, Load, SplitLines, JoinLines, Flat, Blocks;
    var secs := SectionsOf(text);
    SectionsWellFormed(text);
    SectionsFrom(text);
    CanonicalUnfolds(text);
    var names := Sort(secs.order);
    SortHolds(secs.order);
    BlocksAreFlat(secs, names);
    var x := InSomeLine(q, Flat(secs, names));
    FlatLines(secs, names, x);
    OccursFront("", text);
    assert Occurs(x, text);
    OccursVia(q, x, text);
  }

  // ---- twice is once ----

  /** Neither path is left in the replaced text ... */
  lemma PathsGone(raw: string, home: string, root: string)
    requires PlainPath(home) && PlainPath(root) && !Occurs(home, "HOME") && !Occurs(root, "HOME")
    ensures !Occurs(home, HomeReplaced(raw, home, root)) && !Occurs(root, HomeReplaced(raw, home, root))
  {
    hide Occurs, Replace;
    AllReplaced(raw, home);
    var t := Replace(raw, home, MARK);
    AllReplaced(t, root);
    if Occurs(home, Replace(t, root, MARK)) {
      OnlyFromSource(t, root, home);
    }
  }

  /** ... so the whole function changes nothing the second time. */
  lemma TwiceIsOnce(raw: string, home: string, root: string)
    requires PlainPath(home) && PlainPath(root) && !Occurs(home, "HOME") && !Occurs(root, "HOME")
    ensures Whole(Whole(raw, home, root), home, root) == Whole(raw, home, root)
  {
    hide Occurs, Replace, Canonical;
    var text := HomeReplaced(raw, home, root);
    var out := Canonical(text);
    PathsGone(raw, home, root);
    if Occurs(home, out) {
      FromText(home, text);
    }
    if Occurs(root, out) {
      FromText(root, text);
    }
    NothingToReplace(out, home);
    NothingToReplace(out, root);
    CanonicalIdempotent(text);
  }

  // ---- a path that the mark spells ----

  /** One line in angle brackets. */
  ghost predicate Bracketed(s: string) {
    |s| >= 2 && s[0] == '<' && s[|s| - 1] == '>' && OneLine(s)
  }

  lemma {:induction false} EndKept(s: string, pat: string)
    requires PlainPath(pat) && s != "" && s[|s| - 1] == '>' && OneLine(s)
    ensures var r := Replace(s, pat, MARK); r != "" && r[|r| - 1] == '>' && OneLine(r)
    decreases |s|
  {
    assert OneLine(MARK);
    assert s[|s| - 1] in s && s[..|s|] == s;
    if pat <= s {
      EndKept(s[|pat|..], pat);
    } else if |s| > 1 {
      EndKept(s[1..], pat);
    } else {
      assert s[1..] == "";
      assert Replace(s, pat, MARK) == [s[0]] + "";
    }
  }

  lemma BracketsKept(s: string, pat: string)
    requires PlainPath(pat) && Bracketed(s)
    ensures Bracketed(Replace(s, pat, MARK))
  {
    assert pat[0] in pat;
    EndKept(s, pat);
    EndKept(s[1..], pat);
    assert Replace(s, pat, MARK) == [s[0]] + Replace(s[1..], pat, MARK);
  }

  lemma {:induction false} Grows(s: string, pat: string)
    requires pat != "" && |pat| < |MARK|
    ensures |Replace(s, pat, MARK)| >= |s|
    ensures Occurs(pat, s) ==> |Replace(s, pat, MARK)| > |s| && Occurs(MARK, Replace(s, pat, MARK))
    decreases |s|
  {
    var r := Replace(s, pat, MARK);
    if s == "" {
    } else if pat <= s {
      Grows(s[|pat|..], pat);
      OccursFront(MARK, r);
    } else {
      Grows(s[1..], pat);
      if k :| 0 <= k <= |s| && pat <= s[k..] {
        assert s[0..] == s && s[k..] == s[1..][k - 1..];
        assert Occurs(pat, s[1..]);
        assert r[1..] == Replace(s[1..], pat, MARK);
        OccursLater(MARK, r, 1);
      }
    }
  }

  lemma InMark(pat: string)
    requires PlainPath(pat)
    ensures Occurs(pat, "HOME") <==> Occurs(pat, MARK)
    ensures Occurs(pat, "HOME") ==> |pat| < |MARK|
  {
    assert MARK + "" == MARK;
    assert !Occurs(pat, "");
    if Occurs(pat, MARK) && !Occurs(pat, "HOME") {
      AroundMark(pat, "");
    }
    if k :| 0 <= k <= |"HOME"| && pat <= "HOME"[k..] {
      assert MARK[k + 1..] == "HOME"[k..] + ">";
      assert pat <= MARK[k + 1..];
    }
  }

  /** The replaced mark holds a mark, no path that is not in it, and grows when replaced again. */
  lemma MarkGrows(home: string, root: string)
    requires PlainPath(home) && PlainPath(root) && (Occurs(home, "HOME") || Occurs(root, "HOME"))
    ensures var s := HomeReplaced(MARK, home, root);
            Bracketed(s) && Bracketed(HomeReplaced(s, home, root)) && |HomeReplaced(s, home, root)| > |s|
  {
    hide Occurs, Replace, Bracketed;
    var t := Replace(MARK, home, MARK);
    var s := Replace(t, root, MARK);
    var u := Replace(s, home, MARK);
    MarkBracketed();
    BracketsKept(MARK, home);
    BracketsKept(t, root);
    BracketsKept(s, home);
    BracketsKept(u, root);
    OccursItself(MARK);
    InMark(home);
    InMark(root);
    if Occurs(home, "HOME") && Occurs(root, "HOME") {
      Grows(MARK, home);
      OccursVia(root, MARK, t);
      Grows(t, root);
      OccursVia(home, MARK, s);
      Grows(s, home);
      Grows(u, root);
    } else if Occurs(home, "HOME") {
      Grows(MARK, home);
      Absent(MARK, home, root);
      OccursVia(home, MARK, t);
      Grows(t, home);
      Absent(t, home, root);
    } else {
      NothingToReplace(MARK, home);
      Grows(MARK, root);
      Absent(MARK, root, home);
      OccursVia(root, MARK, s);
      Grows(s, root);
    }
  }

  lemma MarkBracketed()
    ensures Bracketed(MARK)
  {
  }

  /** A plain text outside the mark stays out, so replacing it changes nothing. */
  lemma Absent(s: string, pat: string, q: string)
    requires pat != "" && PlainPath(q) && !Occurs(q, "HOME") && !Occurs(q, s)
    ensures var r := Replace(s, pat, MARK); !Occurs(q, r) && Replace(r, q, MARK) == r
  {
    hide Occurs, Replace;
    var r := Replace(s, pat, MARK);
    if Occurs(q, r) {
      OnlyFromSource(s, pat, q);
    }
    NothingToReplace(r, q);
  }

  lemma CanonicalOfOne(s: string)
    requires Bracketed(s)
    ensures Canonical(s) == "\n" + s && Canonical("\n" + s) == "\n" + s
  {
    OneSection(s);
    CanonicalIdempotent(s);
  }

  lemma OneSection(s: string)
    requires Bracketed(s)
    ensures Canonical(s) == "\n" + s
  {
    var secs := Sections([""], map["" := [s]]);
    SplitOne(s);
    LoadOnly(s);
    hide Load, SplitLines, Strip, Sort;
    RenderOnly(s);
  }

  lemma LoadOnly(s: string)
    requires Bracketed(s)
    ensures Load(START, [s]).secs == Sections([""], map["" := [s]])
  {
    StripTight(s);
    LoadOne(START, s);
    hide Strip;
    var t := Touch(NONE, "");
    assert [] + [""] == [""] && t == Sections([""], map["" := []]);
    assert [] + [s] == [s] && t.lines["" := [s]] == map["" := [s]];
    assert Append(NONE, "", s) == t.(lines := t.lines["" := [s]]);
  }

  lemma SortOne(x: string)
    ensures Sort([x]) == [x]
  {
    assert [x][1..] == [];
  }

  lemma RenderOnly(s: string)
    ensures Render(Sections([""], map["" := [s]])) == "\n" + s
  {
    var secs := Sections([""], map["" := [s]]);
    SortOne(s);
    SortOne("");
    hide Sort;
    assert [""][1..] == [];
    assert Section(secs, "") == [s];
    JoinOne(s);
    assert Blocks(secs, [""][1..]) == [];
    assert Blocks(secs, [""]) == ["" + "\n" + JoinLines([s])];
    JoinOne("" + "\n" + s);
  }

  lemma NewlineKept(s: string, home: string, root: string)
    requires PlainPath(home) && PlainPath(root)
    ensures HomeReplaced("\n" + s, home, root) == "\n" + HomeReplaced(s, home, root)
  {
    assert home[0] in home && root[0] in root;
    var t := Replace(s, home, MARK);
    assert ("\n" + s)[1..] == s && ("\n" + t)[1..] == t;
    assert Replace("\n" + s, home, MARK) == "\n" + t;
  }

  lemma TwiceIsMore(home: string, root: string)
    requires PlainPath(home) && PlainPath(root) && (Occurs(home, "HOME") || Occurs(root, "HOME"))
    ensures Whole(Whole(MARK, home, root), home, root) != Whole(MARK, home, root)
  {
    hide Occurs, HomeReplaced, Canonical, Bracketed;
    var s := HomeReplaced(MARK, home, root);
    MarkGrows(home, root);
    CanonicalOfOne(s);
    NewlineKept(s, home, root);
    CanonicalOfBelow(HomeReplaced(s, home, root));
  }

  lemma CanonicalOfBelow(s: string)
    requires Bracketed(s)
    ensures Canonical("\n" + s) == "\n" + s
  {
    CanonicalOfOne(s);
  }

  /** For paths without brackets or newlines, the whole function is idempotent exactly when
      neither path is a part of the word it writes for the home. */
  lemma WholeIdempotentIff(home: string, root: string)
    requires PlainPath(home) && PlainPath(root)
    ensures (forall raw :: Whole(Whole(raw, home, root), home, root) == Whole(raw, home, root)) <==>
              !Occurs(home, "HOME") && !Occurs(root, "HOME")
  {
    hide Occurs, Whole;
    if !Occurs(home, "HOME") && !Occurs(root, "HOME") {
      forall raw ensures Whole(Whole(raw, home, root), home, root) == Whole(raw, home, root) {
        TwiceIsOnce(raw, home, root);
      }
    } else {
      TwiceIsMore(home, root);
    }
  }

  /** A root that the mark spells: the second time the mark itself is rewritten. */
  lemma MarkRespelled()
    ensures Whole("H", "/x/H", "H") == "\n<HOME>"
    ensures Whole("\n<HOME>", "/x/H", "H") == "\n<<HOME>OME>"
  {
    ReplaceH();
    MarkBracketed();
    hide Replace, Bracketed, Canonical, HomeReplaced;
    assert PlainPath("H");
    BracketsKept(MARK, "H");
    CanonicalOfOne(MARK);
    CanonicalOfOne(Replace(MARK, "H", MARK));
    NewlineKept(MARK, "/x/H", "H");
  }

  lemma ReplaceH()
    ensures Replace(MARK, "H", MARK) == "<<HOME>OME>"
    ensures HomeReplaced("H", "/x/H", "H") == MARK
    ensures HomeReplaced(MARK, "/x/H", "H") == "<<HOME>OME>"
  {
    NoFirst("H", "/x/H");
    NoFirst(MARK, "/x/H");
    SpellH();
  }

  lemma NoFirst(s: string, pat: string)
    requires pat != "" && pat[0] !in s
    ensures Replace(s, pat, MARK) == s
  {
    hide Replace;
    forall k | 0 <= k <= |s| ensures !(pat <= s[k..]) {
      assert k < |s| ==> s[k..][0] == s[k] && s[k] in s;
    }
    NothingToReplace(s, pat);
  }

  lemma SpellH()
    ensures Replace("H", "H", MARK) == MARK && Replace(MARK, "H", MARK) == "<<HOME>OME>"
  {
    NoFirst("OME>", "H");
    var a := "OME>";
    assert ("H" + a)[1..] == a && ("<" + ("H" + a))[1..] == "H" + a && MARK == "<" + ("H" + a);
    assert "H" + "" == "H" && ("H" + "")[1..] == "";
    assert Replace("H" + "", "H", MARK) == MARK + "";
    assert Replace("H" + a, "H", MARK) == MARK + a;
    assert Replace("<" + ("H" + a), "H", MARK) == "<" + (MARK + a);
  }
}
