/** The loops that report and count collapsed runs of spaces
    (scripts/check-message-whitespace.py). */
module SpaceScan {
  import opened Common
  import opened LiteralLexer
  import opened LiteralScan
  import opened SpaceRuns

  function RunText(s: string, k: nat): string
    requires k <= |s|
  {
    s[k..k + RunLen(s[k..])]
  }

  ghost predicate Texts(s: string, found: map<nat, string>) {
    forall k :: k in found ==> k <= |s| && found[k] == RunText(s, k)
  }

  /** One `finditer` pass: later finds join those of earlier passes. */
  method FindAll(p: Pattern, literal: string, before: map<nat, string>) returns (found: map<nat, string>)
    requires Texts(literal, before)
    ensures Texts(literal, found)
    ensures forall k :: k in found <==>
              k in before || (k in Matches(p, literal, 0) && k <= |literal| && AfterProse(literal, k))
  {
    hide AfterProse, MatchAt, RunText;
    var i := 0;
    found := before;
    ghost var seen: seq<nat> := [];
    while i < |literal|
      invariant Matches(p, literal, 0) == seen + Matches(p, literal, i)
      invariant Texts(literal, found)
      invariant forall k :: k in found <==> k in before || (k in seen && k <= |literal| && AfterProse(literal, k))
      decreases |literal| - i
    {
      if MatchAt(p, literal, i) {
        MatchFits(p, literal, i);
        if AfterProse(literal, i + 1) {
          found := found[i + 1 := RunText(literal, i + 1)];
        }
        seen := seen + [i + 1];
        i := i + 2 + RunLen(literal[i + 1..]);
      } else {
        i := i + 1;
      }
    }
  }

  /** Keys in ascending order with their values: `sorted(found.items())`. */
  ghost predicate SortedItems(found: map<nat, string>, out: seq<(nat, string)>) {
    (forall i, j :: 0 <= i < j < |out| ==> out[i].0 < out[j].0) &&
    (forall x :: x in out ==> x.0 in found && x.1 == found[x.0]) &&
    (forall k :: k in found ==> (k, found[k]) in out)
  }

  method Sorted(found: map<nat, string>, n: nat) returns (out: seq<(nat, string)>)
    requires forall k :: k in found ==> k < n
    ensures SortedItems(found, out)
  {
    out := [];
    for k := 0 to n
      invariant forall i, j :: 0 <= i < j < |out| ==> out[i].0 < out[j].0
      invariant forall x :: x in out ==> x.0 in found && x.0 < k && x.1 == found[x.0]
      invariant forall q :: q in found && q < k ==> (q, found[q]) in out
    {
      if k in found {
        out := out + [(k, found[k])];
      }
    }
  }

  /** Exactly the offending runs, in ascending order, each with its spaces. */
  ghost predicate Reports(literal: string, out: seq<(nat, string)>) {
    (forall i, j :: 0 <= i < j < |out| ==> out[i].0 < out[j].0) &&
    (forall x :: x in out ==> x.0 in Offending(literal) && x.0 < |literal| && x.1 == RunText(literal, x.0)) &&
    (forall k :: k in Offending(literal) ==> k < |literal| && (k, RunText(literal, k)) in out)
  }

  lemma MatchesWithin(literal: string, k: nat)
    requires k in Matches(Prose, literal, 0) || k in Matches(TickParen, literal, 0)
    ensures k < |literal|
  {
    hide Matches;
    if k in Matches(Prose, literal, 0) {
      MatchesShaped(Prose, literal, 0, k);
    } else {
      MatchesShaped(TickParen, literal, 0, k);
    }
  }

  lemma ReportsFound(literal: string, found: map<nat, string>, out: seq<(nat, string)>)
    requires Texts(literal, found) && SortedItems(found, out)
    requires forall k :: k in found <==> k in Offending(literal)
    ensures Reports(literal, out)
  {
    hide Matches, LaidOut, AfterProse, RunText;
  }

  method OffendingRuns(literal: string) returns (out: seq<(nat, string)>)
    ensures Reports(literal, out)
  {
    hide LaidOut, AfterProse, Matches, RunText, Reports, Texts, SortedItems;
    if LaidOut(literal) {
      out := [];
      NothingReported(literal);
      return;
    }
    NoTexts(literal);
    var found := FindAll(Prose, literal, map[]);
    found := FindAll(TickParen, literal, found);
    forall k | k in Matches(Prose, literal, 0) || k in Matches(TickParen, literal, 0) ensures k < |literal| {
      MatchesWithin(literal, k);
    }
    out := Sorted(found, |literal|);
    ReportsFound(literal, found, out);
  }

  lemma NoTexts(literal: string)
    ensures Texts(literal, map[])
  {
  }

  lemma NothingReported(literal: string)
    requires LaidOut(literal)
    ensures Reports(literal, [])
  {
  }

  lemma NextRun(body: string, i: nat)
    requires i < |body|
    ensures RunLen(body[i..]) >= 1 ==> RunLen(body[i..]) == 1 + RunLen(body[i + 1..]) && body[i] == ' '
    ensures RunLen(body[i..]) == 0 ==> body[i] != ' '
  {
    Tail(body, i, 1);
  }

  /** No run starts within a run, or where fewer than four spaces are left. */
  lemma NoRunWithin(literal: string, i: nat, k: nat)
    requires var body := BodyOf(literal); i <= |body| && i <= k < i + RunLen(body[i..])
    ensures k != i ==> k !in Unreported(literal)
    ensures RunLen(BodyOf(literal)[i..]) < 4 ==> k !in Unreported(literal)
  {
    hide Reported, LaidOut;
    var body := BodyOf(literal);
    RunIsSpaces(body, i);
    assert k != i ==> body[k - 1] == ' ';
  }

  lemma NoRunAtText(literal: string, i: nat)
    requires i < |BodyOf(literal)| && BodyOf(literal)[i] != ' '
    ensures i !in Unreported(literal)
  {
    hide Reported, LaidOut;
  }

  ghost function UpTo(all: set<nat>, i: nat): set<nat> {
    set k | k in all && k < i
  }

  lemma UpToStep(all: set<nat>, i: nat, j: nat)
    requires i < j && forall k :: i < k < j ==> k !in all
    ensures |UpTo(all, j)| == |UpTo(all, i)| + if i in all then 1 else 0
  {
    if i in all {
      assert UpTo(all, j) == UpTo(all, i) + {i};
    } else {
      assert UpTo(all, j) == UpTo(all, i);
    }
  }

  /** Where the scan stands: never in the middle of a run that still counts. */
  ghost predicate Afresh(body: string, i: nat) {
    i <= |body| && (i > 0 && body[i - 1] == ' ' ==> RunLen(body[i..]) < 4)
  }

  lemma ShortRun(literal: string, i: nat)
    requires var body := BodyOf(literal); i < |body| && RunLen(body[i..]) < 4
    ensures i !in Unreported(literal) && Afresh(BodyOf(literal), i + 1)
  {
    hide Unreported, BodyOf, RunLen;
    var body := BodyOf(literal);
    NextRun(body, i);
    if RunLen(body[i..]) > 0 {
      NoRunWithin(literal, i, i);
    } else {
      NoRunAtText(literal, i);
    }
  }

  lemma LongRun(literal: string, i: nat)
    requires var body := BodyOf(literal); i < |body| && RunLen(body[i..]) >= 4
    ensures var e := i + RunLen(BodyOf(literal)[i..]);
            e <= |BodyOf(literal)| && Afresh(BodyOf(literal), e) &&
            forall k :: i < k < e ==> k !in Unreported(literal)
  {
    hide Unreported, BodyOf, RunLen;
    var body := BodyOf(literal);
    var len := RunLen(body[i..]);
    RunOver(body, i + len, len);
    forall k | i < k < i + len ensures k !in Unreported(literal) {
      NoRunWithin(literal, i, k);
    }
  }

  method UnreportedRuns(literal: string) returns (skipped: nat)
    ensures skipped == |Unreported(literal)|
  {
    hide RunLen, Unreported, Reports, BodyOf, LaidOut, ReportedOffsets, UpTo;
    var body := BodyOf(literal);
    if LaidOut(body) {
      NothingCounted(literal);
      skipped := 0;
      return;
    }
    var runs := OffendingRuns(literal);
    var reported := ReportedOffsets(runs);
    ghost var all := Unreported(literal);
    skipped := 0;
    var i := 0;
    UpToEnds(literal);
    while i < |body|
      invariant Afresh(body, i) && skipped == |UpTo(all, i)|
      decreases |body| - i
    {
      var len := RunLen(body[i..]);
      if len >= 4 {
        RunCounts(literal, runs, i);
        LongRun(literal, i);
        UpToStep(all, i, i + len);
        if i != 0 && i + len != |body| && i !in reported {
          skipped := skipped + 1;
        }
        i := i + len;
      } else {
        ShortRun(literal, i);
        UpToStep(all, i, i + 1);
        i := i + 1;
      }
    }
  }

  lemma NothingCounted(literal: string)
    requires LaidOut(BodyOf(literal))
    ensures Unreported(literal) == {}
  {
    hide LaidOut;
  }

  lemma UpToEnds(literal: string)
    ensures UpTo(Unreported(literal), 0) == {}
    ensures UpTo(Unreported(literal), |BodyOf(literal)|) == Unreported(literal)
  {
    UnreportedFits(literal);
  }

  lemma UnreportedFits(literal: string)
    ensures forall k :: k in Unreported(literal) ==> k < |BodyOf(literal)|
  {
    hide LaidOut, Reported;
  }

  lemma RunOver(body: string, e: nat, len: nat)
    requires len <= e <= |body| && RunLen(body[e - len..]) == len
    ensures RunLen(body[e..]) == 0
  {
    if e < |body| {
      assert body[e - len..][len] == body[e];
    }
  }

  function ReportedOffsets(runs: seq<(nat, string)>): set<int> {
    set x | x in runs :: x.0 - 1
  }

  /** A run of four or more spaces that starts afresh counts as skipped unless it
      touches an end or is reported. */
  lemma RunCounts(literal: string, runs: seq<(nat, string)>, i: nat)
    requires Reports(literal, runs) && !LaidOut(BodyOf(literal))
    requires i < |BodyOf(literal)| && RunLen(BodyOf(literal)[i..]) >= 4
    requires !(i > 0 && BodyOf(literal)[i - 1] == ' ')
    ensures i in Unreported(literal) <==>
              i != 0 && i + RunLen(BodyOf(literal)[i..]) != |BodyOf(literal)| && i !in ReportedOffsets(runs)
  {
    var body := BodyOf(literal);
    assert RunLen(body[i..]) >= 4 && body[i..][0] == body[i];
    hide LaidOut, RunLen, RunText, Offending, Reports, ReportedOffsets;
    ReportedBoth(literal, runs, i);
  }

  lemma ReportedBoth(literal: string, runs: seq<(nat, string)>, i: nat)
    requires Reports(literal, runs)
    ensures Reported(literal, i) <==> i in ReportedOffsets(runs)
  {
    hide RunText, Offending;
    if Reported(literal, i) {
      assert (i + 1, RunText(literal, i + 1)) in runs;
      assert (i + 1) - 1 in ReportedOffsets(runs);
    }
  }

  // ---- whole files ----

  datatype Hit = Hit(line: nat, literal: string, runs: seq<string>)

  /** A hit for `l`: its line is that of the first space of its first offending run. */
  ghost predicate HitWith(t: string, l: Lexeme, h: Hit, out: seq<(nat, string)>) {
    Within(t, l.body) && h.literal == InQuotes(l.body.text) && Reports(h.literal, out) && out != [] &&
    var first := out[0].0;
    0 < first <= |l.body.at| && t[l.body.at[first - 1]] == ' ' &&
    h.line == 1 + Newlines(t[..l.body.at[first - 1]]) &&
    h.runs == seq(|out|, k requires 0 <= k < |out| => out[k].1)
  }

  ghost predicate HitFor(t: string, l: Lexeme, h: Hit) {
    exists out: seq<(nat, string)> :: HitWith(t, l, h, out)
  }

  ghost predicate HitsFor(t: string, ls: seq<Lexeme>, hits: seq<Hit>)
    decreases |ls|
  {
    if ls == [] then hits == []
    else if Offending(InQuotes(ls[0].body.text)) == {} then HitsFor(t, ls[1..], hits)
    else hits != [] && HitFor(t, ls[0], hits[0]) && HitsFor(t, ls[1..], hits[1..])
  }

  lemma {:induction false} HitsForSnoc(t: string, ls: seq<Lexeme>, hits: seq<Hit>, l: Lexeme, more: seq<Hit>)
    requires HitsFor(t, ls, hits)
    requires if Offending(InQuotes(l.body.text)) == {} then more == [] else |more| == 1 && HitFor(t, l, more[0])
    ensures HitsFor(t, ls + [l], hits + more)
    decreases |ls|
  {
    hide HitFor, Offending;
    if ls == [] {
      assert ls + [l] == [l] && hits + more == more;
      assert [l][1..] == [];
      assert more != [] ==> more[1..] == [];
    } else {
      assert (ls + [l])[1..] == ls[1..] + [l];
      if Offending(InQuotes(ls[0].body.text)) == {} {
        HitsForSnoc(t, ls[1..], hits, l, more);
      } else {
        HitsForSnoc(t, ls[1..], hits[1..], l, more);
        assert (hits + more)[1..] == hits[1..] + more;
      }
    }
  }

  method ScanText(t: string) returns (hits: seq<Hit>)
    ensures HitsFor(t, Lexemes(t), hits)
  {
    hide Lex, YieldOf, Offending, HitsFor, HitFor, Reports;
    var literals := IterLiterals(t);
    ghost var ls := Lexemes(t);
    hits := [];
    HitsForNothing(t);
    for i := 0 to |literals|
      invariant HitsFor(t, ls[..i], hits)
    {
      var literal, perChar := literals[i].text, literals[i].lines;
      var runs := OffendingRuns(literal);
      ghost var l := ls[i];
      assert literals[i] == YieldOf(t, l);
      LiteralText(t, l);
      assert ls[..i + 1] == ls[..i] + [l];
      if runs == [] {
        NoRuns(literal, runs);
        HitsForSnoc(t, ls[..i], hits, l, []);
        assert hits + [] == hits;
        continue;
      }
      var offset := runs[0].0;
      var lineno := if offset < |perChar| then perChar[offset] else perChar[0];
      var hit := Hit(lineno, literal, seq(|runs|, k requires 0 <= k < |runs| => runs[k].1));
      NoRuns(literal, runs);
      IsHit(t, l, runs, hit);
      HitsForSnoc(t, ls[..i], hits, l, [hit]);
      hits := hits + [hit];
    }
    assert ls[..|literals|] == ls;
  }

  lemma HitsForNothing(t: string)
    ensures HitsFor(t, [], [])
  {
  }

  lemma NoRuns(literal: string, runs: seq<(nat, string)>)
    requires Reports(literal, runs)
    ensures runs == [] <==> Offending(literal) == {}
  {
    hide Offending, RunText;
    if runs != [] {
      assert runs[0] in runs;
    }
  }

  lemma LiteralText(t: string, l: Lexeme)
    requires l.open < |t| && Within(t, l.body)
    ensures YieldOf(t, l).text == InQuotes(l.body.text) && |YieldOf(t, l).lines| >= 2
  {
  }

  /** The offset of a reported run always has a line of its own. */
  lemma IsHit(t: string, l: Lexeme, runs: seq<(nat, string)>, h: Hit)
    requires l.open < |t| && Within(t, l.body) && runs != [] && Reports(InQuotes(l.body.text), runs)
    requires h.literal == InQuotes(l.body.text)
    requires h.runs == seq(|runs|, k requires 0 <= k < |runs| => runs[k].1)
    requires runs[0].0 < |YieldOf(t, l).lines| ==> h.line == YieldOf(t, l).lines[runs[0].0]
    ensures HitFor(t, l, h)
  {
    hide Offending, RunText, Newlines;
    var body := l.body.text;
    assert runs[0] in runs;
    var first := runs[0].0;
    OffendingInterior(body, first);
    assert body[first - 1] == ' ';
    assert YieldOf(t, l).lines[first] == LineOf(t, l.body.at[first - 1]);
    assert HitWith(t, l, h, runs);
  }
}
