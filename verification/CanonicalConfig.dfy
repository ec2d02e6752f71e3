/** Canonical form of a config file: sections sorted by header, lines sorted
    within a section (scripts/portability-migrate-state.py, `canonical_config`). */
module CanonicalConfig {
  import opened Common
  import opened StringOrder

  // ---- str.splitlines() and "\n".join() ----

  predicate IsBreak(c: char) {
    c in "\n\r\U{0B}\U{0C}\U{1C}\U{1D}\U{1E}\U{85}\U{2028}\U{2029}"
  }

  function BreakAt(s: string): (k: nat)
    ensures k <= |s|
    ensures forall j :: 0 <= j < k ==> !IsBreak(s[j])
    ensures k < |s| ==> IsBreak(s[k])
  {
    if s == "" || IsBreak(s[0]) then 0 else 1 + BreakAt(s[1..])
  }

  function SplitLines(s: string): seq<string> {
    if s == "" then []
    else
      var k := BreakAt(s);
      if k == |s| then [s]
      else
        var w := if "\r\n" <= s[k..] then 2 else 1;
        [s[..k]] + SplitLines(s[k + w..])
  }

  function JoinLines(ls: seq<string>): string {
    if ls == [] then "" else if |ls| == 1 then ls[0] else ls[0] + "\n" + JoinLines(ls[1..])
  }

  predicate OneLine(s: string) {
    forall k :: 0 <= k < |s| ==> !IsBreak(s[k])
  }

  // ---- sections ----

  /** The dictionary of sections, its keys in insertion order. */
  datatype Sections = Sections(order: seq<string>, lines: map<string, seq<string>>)

  predicate IsHeader(s: string) {
    s != "" && s[0] == '[' && s[|s| - 1] == ']'
  }

  const NONE := Sections([], map[])

  /** `setdefault(name, [])` */
  function Touch(secs: Sections, name: string): Sections {
    if name in secs.lines then secs else Sections(secs.order + [name], secs.lines[name := []])
  }

  /** `setdefault(name, []).append(line)` */
  function Append(secs: Sections, name: string, line: string): Sections {
    var t := Touch(secs, name);
    if name in t.lines then t.(lines := t.lines[name := t.lines[name] + [line]]) else t
  }

  datatype State = State(secs: Sections, current: string)

  function LoadLine(st: State, line: string): State {
    var s := Strip(line);
    if IsHeader(s) then State(Touch(st.secs, s), s)
    else if s != "" then st.(secs := Append(st.secs, st.current, s))
    else st
  }

  function Load(st: State, ls: seq<string>): State
    decreases |ls|
  {
    if ls == [] then st else Load(LoadLine(st, ls[0]), ls[1..])
  }

  const START := State(NONE, "")

  function Section(secs: Sections, name: string): seq<string> {
    if name in secs.lines then secs.lines[name] else []
  }

  /** The lines of one section of the output. */
  function SectionLines(secs: Sections, name: string): (ls: seq<string>)
    ensures |ls| >= 2
  {
    var ls := Sort(Section(secs, name));
    [name] + if ls == [] then [""] else ls
  }

  function Blocks(secs: Sections, names: seq<string>): seq<string> {
    if names == [] then [] else [names[0] + "\n" + JoinLines(Sort(Section(secs, names[0])))] + Blocks(secs, names[1..])
  }

  function Render(secs: Sections): string {
    JoinLines(Blocks(secs, Sort(secs.order)))
  }

  /** Canonical form of a text whose home paths have been replaced. */
  function Canonical(text: string): string {
    Render(Load(START, SplitLines(text)).secs)
  }

  // ---- the home path ----

  /** `s.replace(pat, sub)` */
  function Replace(s: string, pat: string, sub: string): string {
    if pat == "" then Interleave(s, sub)
    else if s == "" then ""
    else if pat <= s then sub + Replace(s[|pat|..], pat, sub)
    else [s[0]] + Replace(s[1..], pat, sub)
  }

  function Interleave(s: string, sub: string): string {
    if s == "" then sub else sub + [s[0]] + Interleave(s[1..], sub)
  }

  function HomeReplaced(raw: string, home: string, root: string): string {
    Replace(Replace(raw, home, "<HOME>"), root, "<HOME>")
  }

  method CanonicalText(raw: string, home: string, root: string) returns (out: string)
    ensures out == Canonical(HomeReplaced(raw, home, root))
  {
    hide Render, SplitLines, Replace, Sort;
    var text := HomeReplaced(raw, home, root);
    var lines := SplitLines(text);
    var secs, current := NONE, "";
    assert lines[0..] == lines;
    for i := 0 to |lines|
      invariant Load(State(secs, current), lines[i..]) == Load(START, lines)
    {
      var stripped := Strip(lines[i]);
      assert lines[i..][1..] == lines[i + 1..];
      if IsHeader(stripped) {
        current := stripped;
        secs := Touch(secs, current);
      } else if stripped != "" {
        secs := Append(secs, current, stripped);
      }
    }
    out := Render(secs);
  }

  /** A section header is whatever stands between an opening and a closing bracket. */
  lemma HeaderSays(s: string)
    ensures IsHeader(s) <==> exists name :: s == "[" + name + "]"
  {
    if IsHeader(s) {
      assert s == "[" + s[1..|s| - 1] + "]";
    }
  }
}
