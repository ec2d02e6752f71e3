/** Collapsed runs of spaces inside string literals: which are reported, and how
    many are not (scripts/check-message-whitespace.py, `offending_runs`,
    `unreported_runs`, `scan_text`). */
module SpaceRuns {
  import opened Common

  /** The two shapes that are searched for. */
  datatype Pattern = Prose | TickParen

  predicate Left(p: Pattern, c: char) {
    match p
    case Prose => 'a' <= c <= 'z' || c in ",;')`.!?\U{2014}\U{2013}"
    case TickParen => c == '`'
  }

  predicate Right(p: Pattern, c: char) {
    match p
    case Prose => 'a' <= c <= 'z' || c in "'`"
    case TickParen => c == '('
  }

  /** Number of leading spaces. */
  function RunLen(s: string): (k: nat)
    ensures k <= |s|
    ensures forall j :: 0 <= j < k ==> s[j] == ' '
    ensures k < |s| ==> s[k] != ' '
  {
    if s == "" || s[0] != ' ' then 0 else 1 + RunLen(s[1..])
  }

  /** Whether the pattern matches with its boundary character at `i`. */
  predicate MatchAt(p: Pattern, s: string, i: nat) {
    i < |s| && Left(p, s[i]) &&
    var k := RunLen(s[i + 1..]);
    k >= 4 && i + 1 + k < |s| && Right(p, s[i + 1 + k])
  }

  /** Offsets of the runs of successive matches from `i` on: both boundary
      characters of a match are consumed. */
  function Matches(p: Pattern, s: string, i: nat): seq<nat>
    decreases |s| - i
  {
    if i >= |s| then []
    else if MatchAt(p, s, i) then [i + 1] + Matches(p, s, i + 2 + RunLen(s[i + 1..]))
    else Matches(p, s, i + 1)
  }

  /** Number of whitespace-separated words; `start` when no word is under way. */
  function Words(s: string, start: bool): nat {
    if s == "" then 0
    else if IsSpace(s[0]) then Words(s[1..], true)
    else (if start then 1 else 0) + Words(s[1..], false)
  }

  function DropQuotes(s: string): string {
    if s != "" && s[0] == '"' then DropQuotes(s[1..]) else s
  }

  /** Fewer than three words in front of a run make it column padding. */
  predicate AfterProse(literal: string, k: nat)
    requires k <= |literal|
  {
    Words(DropQuotes(literal[..k]), true) >= 3
  }

  predicate Occurs(s: string, pat: string)
    requires pat != ""
  {
    Find(s, pat) < |s|
  }

  /** A literal that lays itself out is not graded. */
  predicate LaidOut(s: string) {
    Occurs(s, "\\n") || Occurs(s, "\\t") || Occurs(s, "\n") || Occurs(s, "\t")
  }

  /** Offsets of the runs that are reported. */
  function Offending(literal: string): set<nat> {
    if LaidOut(literal) then {}
    else set k | 0 <= k < |literal| && AfterProse(literal, k) &&
                 (k in Matches(Prose, literal, 0) || k in Matches(TickParen, literal, 0))
  }

  // ---- the reference: maximal runs, no pattern in sight ----

  /** A maximal run of at least four spaces starts at `k`. */
  predicate RunAt(s: string, k: nat) {
    k < |s| && s[k] == ' ' && (k == 0 || s[k - 1] != ' ') && RunLen(s[k..]) >= 4
  }

  /** ... and touches neither end. */
  predicate InteriorRun(s: string, k: nat) {
    RunAt(s, k) && k > 0 && k + RunLen(s[k..]) < |s|
  }

  function InteriorRuns(s: string): set<nat> {
    set k | 0 <= k < |s| && InteriorRun(s, k)
  }

  /** A run with the boundary characters of a pattern. */
  predicate Shaped(p: Pattern, s: string, k: nat) {
    k > 0 && InteriorRun(s, k) && Left(p, s[k - 1]) && Right(p, s[k + RunLen(s[k..])])
  }

  lemma ShapedIsMatch(p: Pattern, s: string, i: nat)
    ensures MatchAt(p, s, i) <==> Shaped(p, s, i + 1)
  {
    if MatchAt(p, s, i) {
      assert s[i + 1..][0] == s[i + 1];
    }
    if Shaped(p, s, i + 1) {
      assert s[i + 1..][0] == s[i + 1];
    }
  }

  /** Every match is a run of the pattern's shape ... */
  lemma {:induction false} MatchesShaped(p: Pattern, s: string, i: nat, k: nat)
    requires k in Matches(p, s, i)
    ensures Shaped(p, s, k) && k > i
    decreases |s| - i
  {
    hide Shaped, MatchAt;
    ShapedIsMatch(p, s, i);
    if MatchAt(p, s, i) {
      if k != i + 1 {
        MatchesShaped(p, s, i + 2 + RunLen(s[i + 1..]), k);
      }
    } else {
      MatchesShaped(p, s, i + 1, k);
    }
  }

  /** ... and a run of that shape is missed only when its boundary character
      was consumed as the end of the match before it. */
  lemma {:induction false} MissedIsConsumed(p: Pattern, s: string, i: nat, k: nat) returns (m: nat)
    requires Shaped(p, s, k) && k > i && k !in Matches(p, s, i)
    ensures m in Matches(p, s, i) && m < k && m + RunLen(s[m..]) == k - 1
    decreases |s| - i
  {
    hide Shaped, RunLen, MatchAt;
    ShapedIsMatch(p, s, i);
    ShapedIsMatch(p, s, k - 1);
    ShapedEdges(p, s, k);
    if MatchAt(p, s, i) {
      MatchFits(p, s, i);
      var e := i + 2 + RunLen(s[i + 1..]);
      RunIsSpaces(s, i + 1);
      if k > e {
        m := MissedIsConsumed(p, s, e, k);
      } else {
        m := i + 1;
      }
    } else {
      m := MissedIsConsumed(p, s, i + 1, k);
    }
  }

  /** The end of the run at `m`. */
  function RunEnd(s: string, m: nat): nat {
    if m <= |s| then m + RunLen(s[m..]) else m
  }

  lemma {:induction false} MatchesBehind(p: Pattern, s: string, i: nat, m: nat)
    requires m in Matches(p, s, i)
    ensures m > i
    decreases |s| - i
  {
    hide MatchAt;
    if MatchAt(p, s, i) {
      MatchFits(p, s, i);
      if m != i + 1 {
        MatchesBehind(p, s, i + 2 + RunLen(s[i + 1..]), m);
      }
    } else {
      MatchesBehind(p, s, i + 1, m);
    }
  }

  /** Between two matches there are two boundary characters. */
  lemma {:induction false} MatchesApart(p: Pattern, s: string, i: nat, m: nat, k: nat)
    requires m in Matches(p, s, i) && k in Matches(p, s, i) && m < k
    ensures RunEnd(s, m) < k - 1
    decreases |s| - i
  {
    hide MatchAt;
    if MatchAt(p, s, i) {
      MatchFits(p, s, i);
      var e := i + 2 + RunLen(s[i + 1..]);
      if k != i + 1 {
        MatchesBehind(p, s, e, k);
      }
      if m != i + 1 {
        MatchesBehind(p, s, e, m);
        MatchesApart(p, s, e, m, k);
      }
    } else {
      MatchesApart(p, s, i + 1, m, k);
    }
  }

  /** A run of the pattern's shape is matched exactly when no match ends in the character in front of it. */
  lemma MatchedIff(p: Pattern, s: string, k: nat)
    requires Shaped(p, s, k)
    ensures k in Matches(p, s, 0) <==> forall m :: m in Matches(p, s, 0) && m < k ==> RunEnd(s, m) != k - 1
  {
    hide Shaped, RunLen, Matches;
    if k in Matches(p, s, 0) {
      forall m | m in Matches(p, s, 0) && m < k ensures RunEnd(s, m) != k - 1 {
        MatchesApart(p, s, 0, m, k);
      }
    } else {
      ShapedEdges(p, s, k);
      var m := MissedIsConsumed(p, s, 0, k);
    }
  }

  lemma ShapedEdges(p: Pattern, s: string, k: nat)
    requires Shaped(p, s, k)
    ensures 0 < k < |s| && s[k - 1] != ' '
  {
  }

  lemma MatchFits(p: Pattern, s: string, i: nat)
    requires MatchAt(p, s, i)
    ensures i + 2 + RunLen(s[i + 1..]) <= |s|
  {
  }

  lemma RunIsSpaces(s: string, a: nat)
    requires a <= |s|
    ensures forall b :: a <= b < a + RunLen(s[a..]) ==> s[b] == ' '
  {
    forall b | a <= b < a + RunLen(s[a..]) ensures s[b] == ' ' {
      assert s[a..][b - a] == s[b];
    }
  }

  // ---- accounting ----

  function InQuotes(body: string): string {
    "\"" + body + "\""
  }

  lemma RunLenQuote(x: string)
    ensures RunLen(x + "\"") == RunLen(x)
  {
    var s, k := x + "\"", RunLen(x);
    assert k < |x| ==> s[k] == x[k];
    RunLenIs(s, k);
  }

  lemma RunLenIs(s: string, k: nat)
    requires k <= |s| && (forall j :: 0 <= j < k ==> s[j] == ' ') && (k < |s| ==> s[k] != ' ')
    ensures RunLen(s) == k
  {
  }

  /** A run of a pattern's shape in the literal is an interior run of its body. */
  lemma ShapedIsInterior(p: Pattern, body: string, k: nat)
    requires Shaped(p, InQuotes(body), k)
    ensures k >= 1 && InteriorRun(body, k - 1)
  {
    hide RunLen;
    var s := InQuotes(body);
    assert s[0] == s[|s| - 1] == '"';
    var len := RunLen(s[k..]);
    assert s[k - 1] != '"' && s[k + len] != '"';
    assert s[k..] == body[k - 1..] + "\"";
    RunLenQuote(body[k - 1..]);
    assert s[k] == body[k - 1] && s[k - 1] == body[k - 2];
  }

  /** The body offset `k` is that of a reported run; the quote is one character. */
  predicate Reported(literal: string, k: nat) {
    k + 1 in Offending(literal)
  }

  function BodyOf(literal: string): string {
    if |literal| < 2 then "" else literal[1..|literal| - 1]
  }

  /** Interior runs of the body that are not reported. */
  function Unreported(literal: string): set<nat> {
    if LaidOut(BodyOf(literal)) then {}
    else set k | k in InteriorRuns(BodyOf(literal)) && !Reported(literal, k)
  }

  lemma OccursAt(s: string, pat: string, k: nat)
    requires pat != "" && k <= |s| && pat <= s[k..]
    ensures Occurs(s, pat)
  {
  }

  lemma OccursOutside(body: string, pat: string)
    requires pat != "" && Occurs(body, pat)
    ensures Occurs(InQuotes(body), pat)
  {
    var k := Find(body, pat);
    hide Find;
    PrefixAt(body, k, pat);
    var s := InQuotes(body);
    assert s[k + 1..] == body[k..] + "\"";
    OccursAt(s, pat, k + 1);
  }

  lemma OccursInside(body: string, pat: string)
    requires pat != "" && '"' !in pat && Occurs(InQuotes(body), pat)
    ensures Occurs(body, pat)
  {
    var s := InQuotes(body);
    var k := Find(s, pat);
    hide Find;
    PrefixAt(s, k, pat);
    var e := k + |pat|;
    assert s[0] == s[|s| - 1] == '"';
    assert s[k] == pat[0] && s[e - 1] == pat[|pat| - 1];
    assert s[k..e] == body[k - 1..e - 1];
    assert pat <= body[k - 1..] by {
      assert body[k - 1..][..|pat|] == body[k - 1..e - 1];
    }
    OccursAt(body, pat, k - 1);
  }

  lemma OccursInQuotes(body: string, pat: string)
    requires pat != "" && '"' !in pat
    ensures Occurs(InQuotes(body), pat) <==> Occurs(body, pat)
  {
    hide Occurs, InQuotes;
    if Occurs(body, pat) {
      OccursOutside(body, pat);
    }
    if Occurs(InQuotes(body), pat) {
      OccursInside(body, pat);
    }
  }

  lemma LaidOutInQuotes(body: string)
    ensures LaidOut(InQuotes(body)) <==> LaidOut(body)
  {
    hide Occurs;
    OccursInQuotes(body, "\\n");
    OccursInQuotes(body, "\\t");
    OccursInQuotes(body, "\n");
    OccursInQuotes(body, "\t");
  }

  function Shifted(b: set<nat>): set<nat> {
    set k | k in b :: k + 1
  }

  lemma InShifted(b: set<nat>, j: nat)
    requires j in b
    ensures j + 1 in Shifted(b)
  {
  }

  lemma {:induction false} ShiftedSize(b: set<nat>)
    ensures |Shifted(b)| == |b|
    decreases |b|
  {
    if b == {} {
      assert Shifted(b) == {};
    } else {
      var k :| k in b;
      ShiftedSize(b - {k});
      ShiftedOne(b, k);
    }
  }

  lemma ShiftedOne(b: set<nat>, k: nat)
    requires k in b
    ensures Shifted(b) == Shifted(b - {k}) + {k + 1} && k + 1 !in Shifted(b - {k})
  {
    assert b == b - {k} + {k};
  }

  lemma ShiftedIs(a: set<nat>, b: set<nat>)
    requires (forall k :: k in a ==> k in Shifted(b)) && forall k :: k in b ==> k + 1 in a
    ensures a == Shifted(b)
  {
  }

  /** Nothing is lost between the two counts: every interior run of a graded
      literal is either reported or counted as unreported, and never both. */
  lemma RunsAccounted(body: string)
    requires !LaidOut(body)
    ensures |InteriorRuns(body)| == |Offending(InQuotes(body))| + |Unreported(InQuotes(body))|
  {
    hide InteriorRun, AfterProse, Matches, Shifted;
    var s := InQuotes(body);
    LaidOutInQuotes(body);
    hide LaidOut;
    assert BodyOf(s) == body;
    var off, all := Offending(s), InteriorRuns(body);
    var reported := set k | k in all && Reported(s, k);
    forall k | k in off ensures k in Shifted(reported) {
      OffendingInterior(body, k);
      InteriorFits(body, k - 1);
      var j: nat := k - 1;
      assert j in all && Reported(s, j);
      InShifted(reported, j);
    }
    ShiftedIs(off, reported);
    ShiftedSize(reported);
    assert Unreported(s) == all - reported;
  }

  lemma OffendingInterior(body: string, k: nat)
    requires k in Offending(InQuotes(body))
    ensures 0 < k <= |body| && InteriorRun(body, k - 1)
  {
    hide InteriorRun, Shaped;
    var s := InQuotes(body);
    var p := if k in Matches(Prose, s, 0) then Prose else TickParen;
    MatchesShaped(p, s, 0, k);
    ShapedIsInterior(p, body, k);
    InteriorFits(body, k - 1);
  }

  lemma InteriorFits(s: string, k: nat)
    requires InteriorRun(s, k)
    ensures k < |s|
  {
  }

  // ---- the vocabulary, spelled out ----

  /** The boundary characters of both patterns. */
  lemma BoundariesSay(c: char)
    ensures Left(Prose, c) <==> c in SMALL_LETTERS || c in ",;')`.!?\U{2014}\U{2013}"
    ensures Right(Prose, c) <==> c in SMALL_LETTERS || c in "'`"
    ensures Left(TickParen, c) <==> c == '`'
    ensures Right(TickParen, c) <==> c == '('
  {
    SmallLetterIs(c);
  }

  /** A run is counted from its first space on and holds at least four. */
  lemma RunSays(s: string, k: nat)
    ensures RunAt(s, k) <==> k + 4 <= |s| && s[k..k + 4] == "    " && (k == 0 || s[k - 1] != ' ')
  {
    if k + 4 <= |s| {
      var n := RunLen(s[k..]);
      assert forall j :: 0 <= j < 4 ==> s[k..][j] == s[k..k + 4][j];
    }
  }

  /** A word starts here. */
  predicate WordStart(s: string, i: int) {
    0 <= i < |s| && !IsSpace(s[i]) && (i == 0 || IsSpace(s[i - 1]))
  }

  function WordStarts(s: string): set<int> {
    set i | 0 <= i < |s| && WordStart(s, i)
  }

  lemma {:induction false} WordsSnoc(s: string, c: char, start: bool)
    ensures Words(s + [c], start) ==
            Words(s, start) +
            if !IsSpace(c) && (if s == "" then start else IsSpace(s[|s| - 1])) then 1 else 0
  {
    hide IsSpace;
    if s == "" {
      assert s + [c] == [c] && [c][1..] == "";
      assert Words("", true) == 0 && Words("", false) == 0;
    } else {
      assert (s + [c])[1..] == s[1..] + [c];
      WordsSnoc(s[1..], c, IsSpace(s[0]));
    }
  }

  /** The words are counted by their first characters. */
  lemma {:induction false} WordsSay(s: string)
    ensures Words(s, true) == |WordStarts(s)|
  {
    hide IsSpace;
    if s == "" {
      assert WordStarts(s) == {};
    } else {
      var n := |s| - 1;
      var rest := s[..n];
      assert s == rest + [s[n]];
      WordsSay(rest);
      WordsSnoc(rest, s[n], true);
      WordStartsSnoc(rest, s[n]);
      hide Words, WordStarts;
    }
  }

  lemma WordStartsSnoc(s: string, c: char)
    ensures |WordStarts(s + [c])| ==
            |WordStarts(s)| + if !IsSpace(c) && (s == "" || IsSpace(s[|s| - 1])) then 1 else 0
  {
    hide IsSpace;
    assert forall i :: 0 <= i < |s| ==> (WordStart(s + [c], i) <==> WordStart(s, i));
    assert WordStarts(s + [c]) == WordStarts(s) + if WordStart(s + [c], |s|) then {|s|} else {};
  }

  /** Quotes in front are taken off, all of them. */
  lemma {:induction false} QuotesDropped(s: string) returns (q: nat)
    ensures s == Repeat('"', q) + DropQuotes(s)
    ensures DropQuotes(s) == "" || DropQuotes(s)[0] != '"'
  {
    if s != "" && s[0] == '"' {
      q := QuotesDropped(s[1..]);
      assert Repeat('"', q + 1) == ['"'] + Repeat('"', q);
      q := q + 1;
    } else {
      q := 0;
    }
  }

  /** Three words begin in front of the run, leading quotes aside. */
  lemma AfterProseSays(literal: string, k: nat)
    requires k <= |literal|
    ensures AfterProse(literal, k) <==>
              exists q: nat, rest :: literal[..k] == Repeat('"', q) + rest && (rest == "" || rest[0] != '"') &&
                                     |WordStarts(rest)| >= 3
  {
    hide WordStarts, Words, DropQuotes, Repeat;
    var front := literal[..k];
    var q := QuotesDropped(front);
    var prose := DropQuotes(front);
    WordsSay(prose);
    if |WordStarts(prose)| >= 3 {
      assert front == Repeat('"', q) + prose && (prose == "" || prose[0] != '"');
    }
    if p: nat, rest :| front == Repeat('"', p) + rest && (rest == "" || rest[0] != '"') && |WordStarts(rest)| >= 3 {
      QuotesOff(p, rest);
      assert AfterProse(literal, k);
    }
  }

  lemma {:induction false} QuotesOff(q: nat, rest: string)
    requires rest == "" || rest[0] != '"'
    ensures DropQuotes(Repeat('"', q) + rest) == rest
  {
    if q == 0 {
      assert Repeat('"', q) + rest == rest;
    } else {
      assert (Repeat('"', q) + rest)[1..] == Repeat('"', q - 1) + rest;
      QuotesOff(q - 1, rest);
    }
  }

  /** A literal that spells or holds a newline or a tab lays itself out. */
  lemma LaidOutSays(s: string)
    ensures LaidOut(s) <==> '\n' in s || '\t' in s || PartOf("\\n", s) || PartOf("\\t", s)
  {
    hide Find, PartOf;
    FindSays(s, "\\n");
    FindSays(s, "\\t");
    OneChar(s, '\n');
    OneChar(s, '\t');
  }

  lemma OneChar(s: string, c: char)
    ensures Find(s, [c]) < |s| <==> c in s
  {
    hide Find;
    var k := Find(s, [c]);
    if k < |s| {
      assert s[k..][0] == c;
    }
    if j :| 0 <= j < |s| && s[j] == c {
      assert [c] <= s[j..];
    }
  }
}
