/** The canonical form is read back as the sections it was made of: it is stable,
    ignores order, and loses nothing else (scripts/portability-migrate-state.py). */
module CanonicalProof {
  import opened Common
  import opened StringOrder
  import opened CanonicalConfig

  ghost predicate Tight(s: string) {
    Strip(s) == s && OneLine(s)
  }

  ghost predicate GoodName(s: string) {
    Tight(s) && (s == "" || IsHeader(s))
  }

  ghost predicate GoodLine(s: string) {
    Tight(s) && s != "" && !IsHeader(s)
  }

  ghost predicate GoodLines(ls: seq<string>) {
    forall k :: 0 <= k < |ls| ==> GoodLine(ls[k])
  }

  ghost predicate Distinct(s: seq<string>) {
    forall i, j :: 0 <= i < j < |s| ==> s[i] != s[j]
  }

  /** What loading builds: the nameless section only when it holds a line. */
  ghost predicate WellFormed(secs: Sections) {
    Distinct(secs.order) &&
    (forall n :: n in secs.order <==> n in secs.lines) &&
    (forall n :: n in secs.lines ==> GoodName(n) && GoodLines(secs.lines[n])) &&
    ("" in secs.lines ==> secs.lines[""] != [])
  }

  // ---- lines ----

  lemma {:induction false} StripLeftSuffix(s: string)
    ensures exists k :: 0 <= k <= |s| && StripLeft(s) == s[k..]
  {
    if s != "" && IsSpace(s[0]) {
      StripLeftSuffix(s[1..]);
      var k :| 0 <= k <= |s[1..]| && StripLeft(s[1..]) == s[1..][k..];
      Tail(s, 1, k);
      assert StripLeft(s) == s[k + 1..];
    } else {
      assert StripLeft(s) == s[0..];
    }
  }

  lemma StripTightLine(s: string)
    requires OneLine(s)
    ensures Tight(Strip(s))
  {
    StripLeftSuffix(s);
    var k :| 0 <= k <= |s| && StripLeft(s) == s[k..];
    StripIsTight(s);
    StripTight(Strip(s));
  }

  lemma SplitTurn(s: string) returns (k: nat, n: nat)
    requires s != ""
    ensures k <= |s| && k < n && OneLine(s[..k])
    ensures SplitLines(s) == [s[..k]] + if n > |s| then [] else SplitLines(s[n..])
  {
    hide BreakAt;
    k := BreakAt(s);
    n := k + if k < |s| && "\r\n" <= s[k..] then 2 else 1;
    assert s[..|s|] == s;
  }

  lemma {:induction false} SplitOneLine(s: string)
    ensures forall k :: 0 <= k < |SplitLines(s)| ==> OneLine(SplitLines(s)[k])
    decreases |s|
  {
    if s != "" {
      var k, n := SplitTurn(s);
      hide SplitLines, OneLine;
      if n <= |s| {
        SplitOneLine(s[n..]);
      }
    }
  }

  lemma SplitFirst(x: string, rest: string)
    requires OneLine(x)
    ensures SplitLines(x + "\n" + rest) == [x] + SplitLines(rest)
  {
    var s := x + "\n" + rest;
    assert s[|x|] == '\n' && s[|x| + 1..] == rest && s[..|x|] == x;
    BreakIs(s, |x|);
    assert s[|x|..][0] == '\n';
  }

  lemma BreakIs(s: string, k: nat)
    requires k <= |s| && (forall j :: 0 <= j < k ==> !IsBreak(s[j])) && (k < |s| ==> IsBreak(s[k]))
    ensures BreakAt(s) == k
  {
  }

  lemma SplitOne(x: string)
    requires OneLine(x)
    ensures SplitLines(x) == if x == "" then [] else [x]
  {
    BreakIs(x, |x|);
  }

  lemma LoadBlank(st: State)
    ensures Load(st, [""]) == st
  {
    assert Strip("") == "";
    assert [""][1..] == [];
  }

  /** Lines joined, split and loaded are the lines loaded. */
  lemma {:induction false} LoadJoined(st: State, ls: seq<string>)
    requires forall k :: 0 <= k < |ls| ==> OneLine(ls[k])
    ensures Load(st, SplitLines(JoinLines(ls))) == Load(st, ls)
    decreases |ls|
  {
    hide SplitLines, LoadLine, OneLine;
    if ls == [] {
      SplitOne("");
    } else if |ls| == 1 {
      SplitOne(ls[0]);
      assert ls == [ls[0]];
      if ls[0] == "" {
        LoadBlank(st);
      }
    } else {
      SplitFirst(ls[0], JoinLines(ls[1..]));
      var tail := SplitLines(JoinLines(ls[1..]));
      assert ([ls[0]] + tail)[1..] == tail;
      LoadJoined(LoadLine(st, ls[0]), ls[1..]);
    }
  }

  lemma {:induction false} LoadConcat(st: State, a: seq<string>, b: seq<string>)
    ensures Load(st, a + b) == Load(Load(st, a), b)
    decreases |a|
  {
    hide LoadLine;
    if a == [] {
      assert a + b == b;
    } else {
      assert (a + b)[1..] == a[1..] + b;
      LoadConcat(LoadLine(st, a[0]), a[1..], b);
    }
  }

  // ---- loading keeps sections well formed ----

  lemma TouchWellFormed(secs: Sections, name: string)
    requires WellFormed(secs) && GoodName(name) && name != ""
    ensures WellFormed(Touch(secs, name))
  {
    hide GoodName, GoodLine;
  }

  lemma AppendWellFormed(secs: Sections, name: string, line: string)
    requires WellFormed(secs) && GoodName(name) && GoodLine(line)
    ensures WellFormed(Append(secs, name, line))
  {
    hide GoodName, GoodLine;
  }

  lemma {:induction false} LoadWellFormed(st: State, ls: seq<string>)
    requires WellFormed(st.secs) && GoodName(st.current) && forall k :: 0 <= k < |ls| ==> OneLine(ls[k])
    ensures WellFormed(Load(st, ls).secs)
    decreases |ls|
  {
    hide WellFormed, OneLine, Strip, Touch, Append;
    if ls != [] {
      var s := Strip(ls[0]);
      StripTightLine(ls[0]);
      if IsHeader(s) {
        TouchWellFormed(st.secs, s);
      } else if s != "" {
        AppendWellFormed(st.secs, st.current, s);
      }
      LoadWellFormed(LoadLine(st, ls[0]), ls[1..]);
    }
  }

  function SectionsOf(text: string): Sections {
    Load(START, SplitLines(text)).secs
  }

  lemma SectionsWellFormed(text: string)
    ensures WellFormed(SectionsOf(text))
  {
    hide Load, SplitLines;
    SplitOneLine(text);
    NoneWellFormed();
    LoadWellFormed(START, SplitLines(text));
  }

  lemma NoneWellFormed()
    ensures WellFormed(NONE) && GoodName("")
  {
    assert Strip("") == "";
  }

  // ---- the output as lines ----

  function Flat(secs: Sections, names: seq<string>): seq<string> {
    if names == [] then [] else SectionLines(secs, names[0]) + Flat(secs, names[1..])
  }

  lemma {:induction false} JoinConcat(a: seq<string>, b: seq<string>)
    requires a != [] && b != []
    ensures JoinLines(a + b) == JoinLines(a) + "\n" + JoinLines(b)
    decreases |a|
  {
    if |a| == 1 {
      assert (a + b)[1..] == b;
    } else {
      assert (a + b)[1..] == a[1..] + b;
      JoinConcat(a[1..], b);
      Regroup(a[0], JoinLines(a[1..]), JoinLines(b));
    }
  }

  lemma Regroup(x: string, y: string, z: string)
    ensures x + "\n" + (y + "\n" + z) == x + "\n" + y + "\n" + z
  {
    Assoc(x + "\n", y + "\n", z);
    Assoc(x + "\n", y, "\n");
  }

  lemma BlockIsLines(secs: Sections, name: string)
    ensures name + "\n" + JoinLines(Sort(Section(secs, name))) == JoinLines(SectionLines(secs, name))
  {
    hide Sort;
    var ls := Sort(Section(secs, name));
    if ls == [] {
      assert [name, ""][1..] == [""];
    } else {
      JoinConcat([name], ls);
    }
  }

  lemma {:induction false} BlocksAreFlat(secs: Sections, names: seq<string>)
    ensures JoinLines(Blocks(secs, names)) == JoinLines(Flat(secs, names))
    ensures names != [] ==> Blocks(secs, names) != [] && Flat(secs, names) != []
    decreases |names|
  {
    hide SectionLines, JoinLines, Sort;
    if names != [] {
      var n, rest := names[0], names[1..];
      BlocksAreFlat(secs, rest);
      BlockIsLines(secs, n);
      var head := n + "\n" + JoinLines(Sort(Section(secs, n)));
      JoinOne(head);
      if rest == [] {
        assert Blocks(secs, names) == [head] && Flat(secs, names) == SectionLines(secs, n);
      } else {
        JoinConcat([head], Blocks(secs, rest));
        JoinConcat(SectionLines(secs, n), Flat(secs, rest));
      }
    }
  }

  lemma JoinOne(s: string)
    ensures JoinLines([s]) == s
  {
  }

  // ---- reading the output back ----

  /** Sections with names and lines sorted. */
  ghost predicate IsNormal(norm: Sections, secs: Sections, names: seq<string>) {
    norm.order == names && (forall n :: n in norm.lines <==> n in names) &&
    forall n :: n in names ==> norm.lines[n] == Sort(Section(secs, n))
  }

  lemma {:induction false} LoadLines(st: State, ls: seq<string>)
    requires GoodLines(ls) && st.current in st.secs.lines
    ensures Load(st, ls) ==
            st.(secs := st.secs.(lines := st.secs.lines[st.current := st.secs.lines[st.current] + ls]))
    decreases |ls|
  {
    hide Strip, OneLine, IsHeader;
    if ls == [] {
      assert st.secs.lines[st.current] + ls == st.secs.lines[st.current];
    } else {
      var next := LoadLine(st, ls[0]);
      var had := st.secs.lines[st.current];
      assert GoodLine(ls[0]);
      assert next == st.(secs := st.secs.(lines := st.secs.lines[st.current := had + [ls[0]]]));
      LoadLines(next, ls[1..]);
      assert had + [ls[0]] + ls[1..] == had + ls;
    }
  }

  lemma SortedLinesGood(secs: Sections, n: string)
    requires WellFormed(secs) && n in secs.lines
    ensures GoodLines(Sort(secs.lines[n]))
    ensures Sort(secs.lines[n]) == [] <==> secs.lines[n] == []
  {
    hide GoodLine, GoodName, Sort;
    SortSorts(secs.lines[n]);
    var ls := Sort(secs.lines[n]);
    forall k | 0 <= k < |ls| ensures GoodLine(ls[k]) {
      assert ls[k] in multiset(secs.lines[n]);
    }
    assert |multiset(ls)| == |ls|;
  }

  /** A headed section is read back under its header. */
  lemma LoadHeaded(st: State, secs: Sections, n: string)
    requires WellFormed(secs) && n in secs.lines && n != "" && n !in st.secs.lines
    ensures Load(st, SectionLines(secs, n)) ==
            State(Sections(st.secs.order + [n], st.secs.lines[n := Sort(secs.lines[n])]), n)
  {
    hide Sort, Strip, OneLine, IsHeader, Load;
    var ls := Sort(secs.lines[n]);
    SortedLinesGood(secs, n);
    assert GoodName(n);
    var touched := State(Touch(st.secs, n), n);
    LoadOne(st, n);
    assert LoadLine(st, n) == touched;
    if ls == [] {
      LoadConcat(st, [n], [""]);
      LoadBlank(touched);
    } else {
      LoadConcat(st, [n], ls);
      LoadLines(touched, ls);
      assert [] + ls == ls;
    }
  }

  lemma LoadOne(st: State, s: string)
    ensures Load(st, [s]) == LoadLine(st, s)
  {
    hide LoadLine;
    assert [s][1..] == [];
  }

  /** The nameless section is read back at the start of the file. */
  lemma LoadNameless(secs: Sections)
    requires WellFormed(secs) && "" in secs.lines
    ensures Load(START, SectionLines(secs, "")) ==
            State(Sections([""], map["" := Sort(secs.lines[""])]), "")
  {
    hide Sort, Strip, OneLine, IsHeader, Load;
    var ls := Sort(secs.lines[""]);
    SortedLinesGood(secs, "");
    LoadBlank(START);
    LoadConcat(START, [""], ls);
    assert ls == [ls[0]] + ls[1..];
    LoadConcat(START, [ls[0]], ls[1..]);
    LoadOne(START, ls[0]);
    assert GoodLine(ls[0]);
    var first := State(Sections([""], map["" := [ls[0]]]), "");
    assert Touch(NONE, "").lines[""] == [];
    assert [] + [ls[0]] == [ls[0]];
    assert Append(NONE, "", ls[0]).lines == map["" := [ls[0]]];
    assert LoadLine(START, ls[0]) == first;
    LoadLines(first, ls[1..]);
  }

  /** `r` is `had` with the sections `names` of `secs` behind it, their lines sorted. */
  ghost predicate Extends(r: Sections, had: Sections, secs: Sections, names: seq<string>)
    requires forall n :: n in names ==> n in secs.lines
  {
    r.order == had.order + names &&
    (forall n :: n in r.lines <==> n in had.lines || n in names) &&
    (forall n :: n in had.lines && n !in names ==> r.lines[n] == had.lines[n]) &&
    (forall n :: n in names ==> r.lines[n] == Sort(secs.lines[n]))
  }

  /** Headed sections, one after the other. */
  lemma {:induction false} LoadFlat(st: State, secs: Sections, names: seq<string>)
    requires WellFormed(secs) && Distinct(names) && "" !in names
    requires forall n :: n in names ==> n in secs.lines && n !in st.secs.lines
    ensures Extends(Load(st, Flat(secs, names)).secs, st.secs, secs, names)
    decreases |names|
  {
    hide Load, SectionLines, Sort, WellFormed;
    if names == [] {
      LoadNothing(st);
      assert st.secs.order + names == st.secs.order;
    } else {
      var n, rest := names[0], names[1..];
      LoadConcat(st, SectionLines(secs, n), Flat(secs, rest));
      LoadHeaded(st, secs, n);
      var next := Load(st, SectionLines(secs, n));
      LoadFlat(next, secs, rest);
      assert st.secs.order + [n] + rest == st.secs.order + names;
    }
  }

  lemma LoadNothing(st: State)
    ensures Load(st, []) == st
  {
  }

  lemma NamelessFirst(names: seq<string>)
    requires Sorted(names) && Distinct(names) && "" in names
    ensures names[0] == "" && "" !in names[1..]
  {
    FirstIsLeast(names, "");
    var k :| 0 <= k < |names| && names[k] == "";
    assert Le(names[0], "");
  }

  lemma {:induction false} SortDistinct(s: seq<string>)
    requires Distinct(s)
    ensures Distinct(Sort(s)) && forall x :: x in Sort(s) <==> x in s
  {
    hide Sort;
    SortSorts(s);
    OnceEach(s);
    var r := Sort(s);
    forall x ensures x in r <==> x in s {
      assert x in multiset(r) <==> x in multiset(s);
    }
    if i, j :| 0 <= i < j < |r| && r[i] == r[j] {
      TwiceCounts(r, i, j);
    }
  }

  lemma {:induction false} OnceEach(s: seq<string>)
    requires Distinct(s)
    ensures forall x :: multiset(s)[x] <= 1
  {
    if s != [] {
      OnceEach(s[1..]);
      RestOf(s);
      assert s[0] !in s[1..];
    }
  }

  lemma TwiceCounts(r: seq<string>, i: nat, j: nat)
    requires i < j < |r| && r[i] == r[j]
    ensures multiset(r)[r[i]] >= 2
  {
    assert r == r[..i] + [r[i]] + r[i + 1..j] + [r[j]] + r[j + 1..];
  }

  lemma ExtendsNormal(r: Sections, secs: Sections, names: seq<string>)
    requires (forall n :: n in names <==> n in secs.lines) && Extends(r, NONE, secs, names)
    ensures IsNormal(r, secs, names)
  {
    hide Sort;
    assert [] + names == names;
  }

  lemma ExtendsNameless(r: Sections, secs: Sections, names: seq<string>)
    requires (forall n :: n in names <==> n in secs.lines) && names != [] && names[0] == "" && "" !in names[1..]
    requires Extends(r, Sections([""], map["" := Sort(secs.lines[""])]), secs, names[1..])
    ensures IsNormal(r, secs, names)
  {
    hide Sort;
    assert names == [""] + names[1..];
  }

  /** All sections, the nameless one first, loaded from the start of a file. */
  lemma LoadAll(secs: Sections, names: seq<string>)
    requires WellFormed(secs) && Sorted(names) && Distinct(names) && forall n :: n in names <==> n in secs.lines
    ensures IsNormal(Load(START, Flat(secs, names)).secs, secs, names)
  {
    hide Load, Sort, SectionLines, WellFormed, Sorted, IsNormal, Extends;
    if "" in names {
      NamelessFirst(names);
      var rest := names[1..];
      assert Flat(secs, names) == SectionLines(secs, "") + Flat(secs, rest);
      LoadConcat(START, SectionLines(secs, ""), Flat(secs, rest));
      LoadNameless(secs);
      LoadFlat(Load(START, SectionLines(secs, "")), secs, rest);
      ExtendsNameless(Load(START, Flat(secs, names)).secs, secs, names);
    } else {
      LoadFlat(START, secs, names);
      ExtendsNormal(Load(START, Flat(secs, names)).secs, secs, names);
    }
  }

  /** The output is read back as the same sections, sorted. */
  lemma ReadBack(secs: Sections)
    requires WellFormed(secs)
    ensures IsNormal(SectionsOf(Render(secs)), secs, Sort(secs.order))
  {
    hide Load, SplitLines, JoinLines, Sort, SectionLines, GoodName, GoodLine, Flat, Blocks, IsNormal;
    var names := Sort(secs.order);
    SortSorts(secs.order);
    SortDistinct(secs.order);
    BlocksAreFlat(secs, names);
    FlatOneLine(secs, names);
    LoadJoined(START, Flat(secs, names));
    LoadAll(secs, names);
  }

  lemma {:induction false} FlatOneLine(secs: Sections, names: seq<string>)
    requires WellFormed(secs) && forall n :: n in names ==> n in secs.lines
    ensures forall k :: 0 <= k < |Flat(secs, names)| ==> OneLine(Flat(secs, names)[k])
    decreases |names|
  {
    hide Sort, OneLine, WellFormed;
    if names != [] {
      FlatOneLine(secs, names[1..]);
      SectionOneLine(secs, names[0]);
    }
  }

  lemma SectionOneLine(secs: Sections, n: string)
    requires WellFormed(secs) && n in secs.lines
    ensures forall k :: 0 <= k < |SectionLines(secs, n)| ==> OneLine(SectionLines(secs, n)[k])
  {
    hide Sort, Strip, IsHeader;
    SortedLinesGood(secs, n);
    assert GoodName(n);
    var ls := Sort(secs.lines[n]);
    assert forall k :: 0 <= k < |ls| ==> GoodLine(ls[k]);
    assert OneLine("");
  }

  // ---- what the canonical form distinguishes ----

  /** The same headers, and under each the same lines as often. */
  ghost predicate SameContents(a: Sections, b: Sections) {
    a.lines.Keys == b.lines.Keys && forall n :: n in a.lines ==> multiset(a.lines[n]) == multiset(b.lines[n])
  }

  lemma {:induction false} SameSet(a: seq<string>, b: seq<string>)
    requires Distinct(a) && Distinct(b) && forall x :: x in a <==> x in b
    ensures multiset(a) == multiset(b)
  {
    OnceEach(a);
    OnceEach(b);
    forall x ensures multiset(a)[x] == multiset(b)[x] {
      assert x in a <==> x in multiset(a);
      assert x in b <==> x in multiset(b);
    }
  }

  lemma {:induction false} SameBlocks(a: Sections, b: Sections, names: seq<string>)
    requires SameContents(a, b) && forall n :: n in names ==> n in a.lines
    ensures Blocks(a, names) == Blocks(b, names)
    decreases |names|
  {
    hide Sort;
    if names != [] {
      SameBlocks(a, b, names[1..]);
      SortUnique(a.lines[names[0]], b.lines[names[0]]);
    }
  }

  lemma SameRender(a: Sections, b: Sections)
    requires WellFormed(a) && WellFormed(b) && SameContents(a, b)
    ensures Render(a) == Render(b)
  {
    hide Sort, GoodName, GoodLine, JoinLines, Blocks;
    SameSet(a.order, b.order);
    SortUnique(a.order, b.order);
    SortDistinct(a.order);
    SameBlocks(a, b, Sort(a.order));
  }

  /** Reading the output back gives the contents again. */
  lemma NormalSame(norm: Sections, secs: Sections)
    requires WellFormed(secs) && IsNormal(norm, secs, Sort(secs.order))
    ensures SameContents(norm, secs)
  {
    hide Sort, GoodName, GoodLine;
    SortDistinct(secs.order);
    forall n | n in norm.lines ensures multiset(norm.lines[n]) == multiset(secs.lines[n]) {
      SortSorts(secs.lines[n]);
    }
  }

  /** Two texts have the same canonical form exactly when they have the same headers
      and, under each header, the same lines the same number of times. */
  lemma CanonicalIff(a: string, b: string)
    ensures Canonical(a) == Canonical(b) <==> SameContents(SectionsOf(a), SectionsOf(b))
  {
    hide Render, SectionsOf, WellFormed;
    SectionsWellFormed(a);
    SectionsWellFormed(b);
    CanonicalUnfolds(a);
    CanonicalUnfolds(b);
    if SameContents(SectionsOf(a), SectionsOf(b)) {
      SameRender(SectionsOf(a), SectionsOf(b));
    }
    if Canonical(a) == Canonical(b) {
      ReadBack(SectionsOf(a));
      ReadBack(SectionsOf(b));
      NormalSame(SectionsOf(Canonical(a)), SectionsOf(a));
      NormalSame(SectionsOf(Canonical(a)), SectionsOf(b));
    }
  }

  lemma CanonicalUnfolds(text: string)
    ensures Canonical(text) == Render(SectionsOf(text))
  {
  }

  /** The canonical form is its own canonical form. */
  lemma CanonicalIdempotent(text: string)
    ensures Canonical(Canonical(text)) == Canonical(text)
  {
    hide Render, SectionsOf, WellFormed;
    SectionsWellFormed(text);
    CanonicalUnfolds(text);
    ReadBack(SectionsOf(text));
    NormalSame(SectionsOf(Canonical(text)), SectionsOf(text));
    CanonicalIff(Canonical(text), text);
  }

  // ---- reordering a file ----

  /** A header line and the lines below it. */
  datatype Block = Block(header: string, body: seq<string>)

  ghost predicate GoodBody(ls: seq<string>) {
    forall k :: 0 <= k < |ls| ==> !IsHeader(Strip(ls[k]))
  }

  ghost predicate GoodBlocks(bs: seq<Block>) {
    forall k :: 0 <= k < |bs| ==> IsHeader(Strip(bs[k].header)) && GoodBody(bs[k].body)
  }

  function FileLines(bs: seq<Block>): seq<string> {
    if bs == [] then [] else [bs[0].header] + bs[0].body + FileLines(bs[1..])
  }

  /** The lines that count: stripped, blank ones dropped. */
  function Tidy(ls: seq<string>): seq<string> {
    if ls == [] then []
    else (if Strip(ls[0]) == "" then [] else [Strip(ls[0])]) + Tidy(ls[1..])
  }

  type Contents = map<string, multiset<string>>

  ghost function ContentsOf(secs: Sections): Contents {
    map n | n in secs.lines :: multiset(secs.lines[n])
  }

  ghost function Add(m: Contents, name: string, ls: multiset<string>): Contents {
    m[name := Had(m, name) + ls]
  }

  ghost function Had(m: Contents, name: string): multiset<string> {
    if name in m then m[name] else multiset{}
  }

  lemma AddNothing(m: Contents, n: string)
    requires n in m
    ensures Add(m, n, multiset{}) == m
  {
    assert m[n] + multiset{} == m[n];
  }

  lemma AddTwice(m: Contents, n: string, x: multiset<string>, y: multiset<string>)
    ensures Add(Add(m, n, x), n, y) == Add(m, n, x + y)
  {
    assert Had(m, n) + x + y == Had(m, n) + (x + y);
  }

  lemma TouchContents(secs: Sections, n: string)
    ensures ContentsOf(Touch(secs, n)) == if n in secs.lines then ContentsOf(secs) else ContentsOf(secs)[n :=
        multiset{}]
  {
  }

  lemma AppendContents(secs: Sections, n: string, line: string)
    ensures ContentsOf(Append(secs, n, line)) == Add(ContentsOf(secs), n, multiset{line})
  {
    var t := Touch(secs, n);
    TouchedLines(secs, n);
    hide Touch, ContentsOf, Had;
    TouchContents(secs, n);
    var ls := t.lines[n] + [line];
    assert multiset(ls) == multiset(t.lines[n]) + multiset{line};
    ReplaceContents(t, n, ls);
    TwiceUpdated(ContentsOf(secs), n, multiset{}, multiset(ls));
  }

  lemma TouchedLines(secs: Sections, n: string)
    ensures n in Touch(secs, n).lines && multiset(Touch(secs, n).lines[n]) == Had(ContentsOf(secs), n)
  {
  }

  lemma TwiceUpdated(m: Contents, n: string, a: multiset<string>, b: multiset<string>)
    ensures m[n := a][n := b] == m[n := b]
  {
  }

  lemma ReplaceContents(t: Sections, n: string, ls: seq<string>)
    requires n in t.lines
    ensures ContentsOf(t.(lines := t.lines[n := ls])) == ContentsOf(t)[n := multiset(ls)]
  {
  }

  lemma TidyHead(ls: seq<string>)
    requires ls != []
    ensures multiset(Tidy(ls)) == (if Strip(ls[0]) ==
              "" then multiset{} else multiset{Strip(ls[0])}) + multiset(Tidy(ls[1..]))
  {
    hide Strip;
  }

  /** The body of a block adds its lines to the current section. */
  lemma {:induction false} LoadBody(st: State, ls: seq<string>)
    requires GoodBody(ls) && st.current in st.secs.lines
    ensures var r := Load(st, ls);
            r.current == st.current && ContentsOf(r.secs) == Add(ContentsOf(st.secs), st.current, multiset(Tidy(ls)))
    decreases |ls|
  {
    hide Strip, IsHeader, Add, ContentsOf, Append;
    if ls == [] {
      InContents(st.secs, st.current);
      AddNothing(ContentsOf(st.secs), st.current);
    } else {
      var next, s := LoadLine(st, ls[0]), Strip(ls[0]);
      InAppended(st.secs, st.current, s);
      LoadBody(next, ls[1..]);
      TidyHead(ls);
      hide Tidy;
      if s == "" {
        assert multiset{} + multiset(Tidy(ls[1..])) == multiset(Tidy(ls[1..]));
      } else {
        AppendContents(st.secs, st.current, s);
        AddTwice(ContentsOf(st.secs), st.current, multiset{s}, multiset(Tidy(ls[1..])));
      }
    }
  }

  lemma InContents(secs: Sections, n: string)
    ensures n in secs.lines <==> n in ContentsOf(secs)
  {
  }

  lemma InAppended(secs: Sections, n: string, line: string)
    ensures n in Append(secs, n, line).lines
  {
  }

  ghost function AddBlocks(m: Contents, bs: seq<(string, multiset<string>)>): Contents
    decreases |bs|
  {
    if bs == [] then m else AddBlocks(Add(m, bs[0].0, bs[0].1), bs[1..])
  }

  ghost function Summary(b: Block): (string, multiset<string>) {
    (Strip(b.header), multiset(Tidy(b.body)))
  }

  ghost function Summaries(bs: seq<Block>): (r: seq<(string, multiset<string>)>)
    ensures |r| == |bs|
  {
    seq(|bs|, k requires 0 <= k < |bs| => Summary(bs[k]))
  }

  /** One block adds its lines under its header. */
  lemma LoadBlock(st: State, b: Block)
    requires IsHeader(Strip(b.header)) && GoodBody(b.body)
    ensures ContentsOf(Load(st, [b.header] + b.body).secs) == Add(ContentsOf(st.secs), Summary(b).0, Summary(b).1)
  {
    hide Strip, IsHeader, Tidy, Load, ContentsOf, Touch;
    var n := Strip(b.header);
    var under := LoadLine(st, b.header);
    LoadConcat(st, [b.header], b.body);
    LoadOne(st, b.header);
    InTouched(st.secs, n);
    LoadBody(under, b.body);
    TouchContents(st.secs, n);
    InContents(st.secs, n);
    AddTouched(ContentsOf(st.secs), n, multiset(Tidy(b.body)));
  }

  lemma InTouched(secs: Sections, n: string)
    ensures n in Touch(secs, n).lines
  {
  }

  lemma AddTouched(m: Contents, n: string, x: multiset<string>)
    ensures Add(m[n := multiset{}], n, x) == m[n := x]
    ensures n !in m ==> Add(m, n, x) == m[n := x]
  {
    assert multiset{} + x == x;
  }

  lemma {:induction false} LoadBlocks(st: State, bs: seq<Block>)
    requires GoodBlocks(bs)
    ensures ContentsOf(Load(st, FileLines(bs)).secs) == AddBlocks(ContentsOf(st.secs), Summaries(bs))
    decreases |bs|
  {
    hide Load, ContentsOf, Add, Summary, Strip, IsHeader;
    if bs == [] {
      LoadNothing(st);
    } else {
      var b, rest := bs[0], bs[1..];
      LoadConcat(st, [b.header] + b.body, FileLines(rest));
      LoadBlock(st, b);
      LoadBlocks(Load(st, [b.header] + b.body), rest);
      assert Summaries(bs)[1..] == Summaries(rest);
    }
  }

  lemma AddCommutes(m: Contents, a: string, x: multiset<string>, b: string, y: multiset<string>)
    ensures Add(Add(m, a, x), b, y) == Add(Add(m, b, y), a, x)
  {
    if a == b {
      AddTwice(m, a, x, y);
      AddTwice(m, a, y, x);
      assert x + y == y + x;
    } else {
      var p, q := Had(m, a) + x, Had(m, b) + y;
      UpdatesCommute(m, a, p, b, q);
    }
  }

  lemma UpdatesCommute(m: Contents, a: string, p: multiset<string>, b: string, q: multiset<string>)
    requires a != b
    ensures m[a := p][b := q] == m[b := q][a := p]
  {
  }

  /** A block can be taken from anywhere to the front. */
  lemma {:induction false} MoveFront(m: Contents, bs: seq<(string, multiset<string>)>, k: nat)
    requires k < |bs|
    ensures AddBlocks(m, bs) == AddBlocks(Add(m, bs[k].0, bs[k].1), bs[..k] + bs[k + 1..])
    decreases k
  {
    hide Add;
    if k == 0 {
      assert bs[..0] + bs[1..] == bs[1..];
    } else {
      var (n, x) := bs[0];
      var rest := bs[1..];
      MoveFront(Add(m, n, x), rest, k - 1);
      AddCommutes(m, n, x, bs[k].0, bs[k].1);
      var without := bs[..k] + bs[k + 1..];
      assert without[0] == bs[0] && without[1..] == rest[..k - 1] + rest[k..];
    }
  }

  lemma {:induction false} BlocksPermute(m: Contents, a: seq<(string, multiset<string>)>, b: seq<(string,
                                         multiset<string>)>)
    requires multiset(a) == multiset(b)
    ensures AddBlocks(m, a) == AddBlocks(m, b)
    decreases |a|
  {
    hide Add;
    assert |multiset(a)| == |a| && |multiset(b)| == |b|;
    if a != [] {
      assert a[0] in multiset(b);
      var k :| 0 <= k < |b| && b[k] == a[0];
      MoveFront(m, b, k);
      Without(b, k);
      RestOf(a);
      Cancel(a[0], multiset(a[1..]), multiset(b[..k] + b[k + 1..]));
      BlocksPermute(Add(m, a[0].0, a[0].1), a[1..], b[..k] + b[k + 1..]);
    }
  }

  lemma Cancel<T>(x: T, a: multiset<T>, b: multiset<T>)
    requires multiset{x} + a == multiset{x} + b
    ensures a == b
  {
    assert a == multiset{x} + a - multiset{x} && b == multiset{x} + b - multiset{x};
  }

  lemma Without<T>(b: seq<T>, k: nat)
    requires k < |b|
    ensures multiset(b) == multiset{b[k]} + multiset(b[..k] + b[k + 1..])
  {
    assert b == b[..k] + [b[k]] + b[k + 1..];
  }

  /** Lines in front of the first header. */
  lemma {:induction false} LoadPreamble(ls: seq<string>)
    requires GoodBody(ls)
    ensures var r := Load(START, ls);
            ContentsOf(r.secs) == if Tidy(ls) == [] then map[] else map["" := multiset(Tidy(ls))]
    decreases |ls|
  {
    hide Strip, IsHeader, ContentsOf, Append;
    if ls == [] {
      EmptyContents();
    } else {
      var s := Strip(ls[0]);
      if s == "" {
        assert LoadLine(START, ls[0]) == START;
        LoadPreamble(ls[1..]);
        assert [] + Tidy(ls[1..]) == Tidy(ls[1..]);
      } else {
        var next := LoadLine(START, ls[0]);
        EmptyContents();
        AppendContents(NONE, "", s);
        InAppended(NONE, "", s);
        LoadBody(next, ls[1..]);
        TidyHead(ls);
        AddTwice(map[], "", multiset{s}, multiset(Tidy(ls[1..])));
        AddTouched(map[], "", multiset(Tidy(ls)));
      }
    }
  }

  lemma EmptyContents()
    ensures ContentsOf(NONE) == map[]
  {
  }

  lemma ContentsDecide(a: Sections, b: Sections)
    requires ContentsOf(a) == ContentsOf(b)
    ensures SameContents(a, b)
  {
    forall n | n in a.lines ensures n in b.lines && multiset(a.lines[n]) == multiset(b.lines[n]) {
      assert n in ContentsOf(a);
      assert n in ContentsOf(b);
      assert ContentsOf(a)[n] == ContentsOf(b)[n];
    }
    forall n | n in b.lines ensures n in a.lines {
      assert n in ContentsOf(b);
      assert n in ContentsOf(a);
    }
  }

  /** Reordering the section blocks of a file, and the lines within its sections,
      does not change the canonical form. */
  lemma ReorderInvariant(t: string, u: string, pre: seq<string>, pre': seq<string>, bs: seq<Block>, bs': seq<Block>)
    requires SplitLines(t) == pre + FileLines(bs) && SplitLines(u) == pre' + FileLines(bs')
    requires GoodBody(pre) && GoodBody(pre') && GoodBlocks(bs) && GoodBlocks(bs')
    requires multiset(Tidy(pre)) == multiset(Tidy(pre')) && multiset(Summaries(bs)) == multiset(Summaries(bs'))
    ensures Canonical(t) == Canonical(u)
  {
    hide Canonical, Load, SplitLines, FileLines, Tidy, Summaries, GoodBody, GoodBlocks, ContentsOf;
    LoadConcat(START, pre, FileLines(bs));
    LoadConcat(START, pre', FileLines(bs'));
    LoadPreamble(pre);
    LoadPreamble(pre');
    assert |multiset(Tidy(pre))| == |Tidy(pre)| && |multiset(Tidy(pre'))| == |Tidy(pre')|;
    LoadBlocks(Load(START, pre), bs);
    LoadBlocks(Load(START, pre'), bs');
    BlocksPermute(ContentsOf(Load(START, pre).secs), Summaries(bs), Summaries(bs'));
    ContentsDecide(SectionsOf(t), SectionsOf(u));
    CanonicalIff(t, u);
  }
}
