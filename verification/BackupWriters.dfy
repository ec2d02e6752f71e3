/** Concurrent writers that commit a row, publish its number, and raise a START
    marker (scripts/sqlite-backup-writer.py), as a transition system: any writer
    may take its next step at any time, fail a commit, or be killed. */
module BackupWriters {
  import opened Common

  datatype File = Absent | Text(raw: string)

  /** Where a writer stands in its loop. */
  datatype Place =
    | Ready        // top of the loop, about to commit row n + 1
    | Committed    // row n is durable, its number not yet published
    | TmpOpen      // the temporary file exists and is empty
    | TmpWritten   // the temporary file holds n
    | Truncated    // the broken publisher: the marker itself is open and empty
    | Published    // the marker holds n
    | Looped       // end of the loop body
    | Done

  /** A writer, its committed rows and its marker files. */
  datatype Writer = Writer(at: Place, n: nat, rows: set<nat>, tmp: File, marker: File, start: bool)

  datatype Publisher = Atomic | Truncating

  const FRESH := Writer(Ready, 0, {}, Absent, Absent, false)

  /** One atomic step of one writer. */
  ghost predicate Next(p: Publisher, w: Writer, w': Writer) {
    // killed, or the deadline has passed
    w' == w.(at := Done) ||
    match w.at
    case Ready =>
      // the commit fails and leaves no row, or row n + 1 becomes durable
      w' == w || w' == w.(at := Committed, n := w.n + 1, rows := w.rows + {w.n + 1})
    case Committed =>
      if p.Atomic? then w' == w.(at := TmpOpen, tmp := Text("")) else w' == w.(at := Truncated, marker := Text(""))
    case TmpOpen => w' == w.(at := TmpWritten, tmp := Text(Decimal(w.n)))
    case TmpWritten => w' == w.(at := Published, marker := w.tmp, tmp := Absent)
    case Truncated => w' == w.(at := Published, marker := Text(Decimal(w.n)))
    case Published => w' == w.(at := Looped, start := w.start || w.n == 1)
    case Looped => w' == w.(at := Ready)
    case Done => false
  }

  type System = map<string, Writer>

  /** One writer moves, the others stand still. */
  ghost predicate Step(p: Publisher, s: System, s': System) {
    exists wid :: wid in s && wid in s' && Next(p, s[wid], s'[wid]) && s' == s[wid := s'[wid]]
  }

  /** A run from the start, under any interleaving. */
  ghost predicate Run(p: Publisher, run: seq<System>) {
    run != [] && (forall wid :: wid in run[0] ==> run[0][wid] == FRESH) &&
    forall i :: 0 <= i < |run| - 1 ==> Step(p, run[i], run[i + 1])
  }

  // ---- what every step keeps ----

  /** The first `n` rows. */
  function FirstRows(n: nat): (r: set<nat>)
    ensures forall k :: k in r <==> 1 <= k <= n
    ensures |r| == n
  {
    if n == 0 then {} else FirstRows(n - 1) + {n}
  }

  /** The marker shows `m`, nothing being shown as 0. */
  predicate Shows(marker: File, m: nat) {
    if m == 0 then marker == Absent else marker == Text(Decimal(m))
  }

  ghost predicate Sound(w: Writer) {
    w.rows == FirstRows(w.n) && w.at != Truncated &&
    match w.at
    case Ready => Shows(w.marker, w.n) && (w.start <==> w.n > 0)
    case Committed => w.n > 0 && Shows(w.marker, w.n - 1) && (w.start <==> w.n > 1)
    case TmpOpen => w.n > 0 && Shows(w.marker, w.n - 1) && (w.start <==> w.n > 1)
    case TmpWritten => w.n > 0 && Shows(w.marker, w.n - 1) && (w.start <==> w.n > 1) && w.tmp == Text(Decimal(w.n))
    case Published => w.n > 0 && Shows(w.marker, w.n) && (w.n > 1 ==> w.start)
    case Looped => w.n > 0 && Shows(w.marker, w.n) && w.start
    case Done => (Shows(w.marker, w.n) || (w.n > 0 && Shows(w.marker, w.n - 1))) && (w.start ==> !Shows(w.marker, 0))
    case Truncated => false
  }

  lemma FreshSound()
    ensures Sound(FRESH)
  {
  }

  lemma NextSound(w: Writer, w': Writer)
    requires Sound(w) && Next(Atomic, w, w')
    ensures Sound(w')
    ensures w.n <= w'.n && w.rows <= w'.rows && (w.start ==> w'.start)
  {
  }

  /** A marker shows one number. */
  lemma ShowsOnce(f: File, a: nat, b: nat)
    requires Shows(f, a) && Shows(f, b)
    ensures a == b
  {
    ParseDecimal(a);
    ParseDecimal(b);
  }

  /** In every state of every run, of every writer. */
  lemma {:induction false} RunSound(run: seq<System>, i: nat, wid: string)
    requires Run(Atomic, run) && i < |run| && wid in run[0]
    ensures wid in run[i] && Sound(run[i][wid])
    decreases i
  {
    FreshSound();
    if i > 0 {
      RunSound(run, i - 1, wid);
      OneMoves(Atomic, run[i - 1], run[i], wid);
      if run[i][wid] != run[i - 1][wid] {
        NextSound(run[i - 1][wid], run[i][wid]);
      }
    }
  }

  lemma OneMoves(p: Publisher, s: System, s': System, wid: string)
    requires Step(p, s, s') && wid in s
    ensures wid in s' && (s'[wid] == s[wid] || Next(p, s[wid], s'[wid]))
  {
  }

  /** What the marker of a sound writer shows: its last row or the one before. */
  function Shown(w: Writer): (m: nat)
    requires Sound(w)
    ensures Shows(w.marker, m) && (m == w.n || m == w.n - 1)
  {
    if Shows(w.marker, w.n) then w.n else w.n - 1
  }

  /** Committed rows are exactly 1..k, and the marker is absent or equals k or k - 1. */
  lemma MarkersUnderReport(run: seq<System>, i: nat, wid: string)
    requires Run(Atomic, run) && i < |run| && wid in run[0]
    ensures wid in run[i]
    ensures var w := run[i][wid];
            w.rows == FirstRows(w.n) && |w.rows| == w.n &&
            exists m: nat :: (m == w.n || m == w.n - 1) && Shows(w.marker, m)
  {
    RunSound(run, i, wid);
    var m := Shown(run[i][wid]);
  }

  /** Rows and markers never decrease, and a start marker stays. */
  lemma {:induction false} RunMonotone(run: seq<System>, i: nat, j: nat, wid: string)
    requires Run(Atomic, run) && i <= j < |run| && wid in run[0]
    ensures wid in run[i] && wid in run[j] && Sound(run[i][wid]) && Sound(run[j][wid])
    ensures run[i][wid].rows <= run[j][wid].rows && run[i][wid].n <= run[j][wid].n
    ensures run[i][wid].start ==> run[j][wid].start
    ensures Shown(run[i][wid]) <= Shown(run[j][wid])
    decreases j - i
  {
    RunSound(run, i, wid);
    if i < j {
      RunMonotone(run, i + 1, j, wid);
      OneMoves(Atomic, run[i], run[i + 1], wid);
      var w, w' := run[i][wid], run[i + 1][wid];
      if w != w' {
        NextSound(w, w');
        NextShown(w, w');
      }
    }
  }

  lemma NextShown(w: Writer, w': Writer)
    requires Sound(w) && Next(Atomic, w, w') && Sound(w')
    ensures Shown(w) <= Shown(w')
  {
    ShowsOnce(w.marker, Shown(w), Shown(w));
    if w'.marker == w.marker {
      ShowsOnce(w.marker, Shown(w), Shown(w'));
    } else {
      ShowsOnce(w'.marker, Shown(w'), w.n);
    }
  }

  // ---- reading markers ----

  datatype Reading = Unreadable | Empty | NotANumber | Value(n: nat)

  /** One marker, read and parsed. */
  function ReadMarker(f: File): Reading {
    match f
    case Absent => Unreadable
    case Text(raw) =>
      var t := Strip(raw);
      if t == "" then Empty
      else match ParseDigits(t)
           case None => NotANumber
           case Some(n) => Value(n)
  }

  lemma ReadShown(f: File, m: nat)
    requires Shows(f, m) && m > 0
    ensures ReadMarker(f) == Value(m)
  {
    DecimalTight(m);
    ParseDecimal(m);
  }

  /** Once START is up, the marker can be read at any later time: it shows a
      number between 1 and the rows committed by then, at most one behind. */
  lemma StartedIsReadable(run: seq<System>, i: nat, j: nat, wid: string)
    requires Run(Atomic, run) && i <= j < |run| && wid in run[0] && wid in run[i] && run[i][wid].start
    ensures wid in run[j]
    ensures var w := run[j][wid];
            ReadMarker(w.marker).Value? && 1 <= ReadMarker(w.marker).n <= w.n <= ReadMarker(w.marker).n + 1
  {
    RunMonotone(run, i, j, wid);
    var w := run[j][wid];
    StartedShows(w);
    ReadShown(w.marker, Shown(w));
  }

  lemma StartedShows(w: Writer)
    requires Sound(w) && w.start
    ensures Shown(w) > 0
  {
  }

  /** The in-place publisher: a run in which START is up and the marker reads as empty. */
  lemma TruncatingIsCaught() returns (run: seq<System>)
    ensures Run(Truncating, run)
    ensures "w0" in run[|run| - 1] &&
            var w := run[|run| - 1]["w0"]; w.start && w.n == 2 && ReadMarker(w.marker) == Empty
  {
    var w := FRESH;
    var a := w.(at := Committed, n := 1, rows := {} + {1});
    var b := a.(at := Truncated, marker := Text(""));
    var c := b.(at := Published, marker := Text(Decimal(1)));
    var d := c.(at := Looped, start := true);
    var e := d.(at := Ready);
    var f := e.(at := Committed, n := 2, rows := {1} + {2});
    var g := f.(at := Truncated, marker := Text(""));
    var ws := [w, a, b, c, d, e, f, g];
    run := seq(8, k requires 0 <= k < 8 => map["w0" := ws[k]]);
    forall i | 0 <= i < 7 ensures Step(Truncating, run[i], run[i + 1]) {
      assert Next(Truncating, ws[i], ws[i + 1]);
      assert run[i]["w0"] == ws[i] && run[i + 1]["w0"] == ws[i + 1];
      assert run[i + 1] == run[i]["w0" := ws[i + 1]];
    }
  }

  // ---- the writer's own loop ----

  /** What befalls one pass of the loop: whether its commit fails, and whether the
      deadline has passed at its end. */
  datatype Outcome = Outcome(fails: bool, late: bool)

  /** How many commits succeed before the deadline ends the loop. */
  function Commits(outcomes: seq<Outcome>): nat {
    if outcomes == [] then 0
    else (if outcomes[0].fails then 0 else 1) + if outcomes[0].late then 0 else Commits(outcomes[1..])
  }

  /** Nothing half done: every committed row is published, START is up after the first. */
  ghost predicate Settled(w: Writer, n: nat) {
    w.n == n && w.rows == FirstRows(n) && Shows(w.marker, n) && (w.start <==> n > 0)
  }

  /** Each state comes from the one before it by a step. */
  ghost predicate Steps(trace: seq<Writer>) {
    trace != [] && forall i :: 0 <= i < |trace| - 1 ==> Next(Atomic, trace[i], trace[i + 1])
  }

  lemma StepsJoin(trace: seq<Writer>, more: seq<Writer>)
    requires Steps(trace) && Steps([trace[|trace| - 1]] + more)
    ensures Steps(trace + more)
  {
    hide Next;
    var joined, tail := trace + more, [trace[|trace| - 1]] + more;
    forall i | 0 <= i < |joined| - 1 ensures Next(Atomic, joined[i], joined[i + 1]) {
      if i >= |trace| - 1 {
        assert joined[i] == tail[i - (|trace| - 1)] && joined[i + 1] == tail[i + 1 - (|trace| - 1)];
      }
    }
  }

  lemma OneStep(w: Writer, w': Writer)
    requires Next(Atomic, w, w')
    ensures Steps([w] + [w'])
  {
  }

  /** Write the temporary file, then rename it over the marker. */
  method PublishProgress(w: Writer) returns (passed: seq<Writer>)
    requires w.at == Committed
    ensures Steps([w] + passed) && |passed| == 3 && passed[0].marker == passed[1].marker == w.marker
    ensures passed[2] == w.(at := Published, tmp := Absent, marker := Text(Decimal(w.n)))
  {
    var a := w.(at := TmpOpen, tmp := Text(""));
    var b := a.(at := TmpWritten, tmp := Text(Decimal(w.n)));
    var c := b.(at := Published, marker := b.tmp, tmp := Absent);
    passed := [a, b, c];
  }

  /** A pass whose commit succeeds: commit, publish, raise START after the first row. */
  method CommitPass(w: Writer) returns (passed: seq<Writer>)
    requires w.at == Ready && Settled(w, w.n)
    ensures Steps([w] + passed) && passed != []
    ensures var last := passed[|passed| - 1]; last.at == Looped && Settled(last, w.n + 1)
  {
    hide Decimal;
    var c := w.(at := Committed, n := w.n + 1, rows := w.rows + {w.n + 1});
    OneStep(w, c);
    var published := PublishProgress(c);
    var last := published[2].(at := Looped, start := if c.n == 1 then true else c.start);
    StepsJoin([w] + [c], published);
    OneStep(published[2], last);
    hide Next;
    StepsJoin([w] + [c] + published, [last]);
    passed := [c] + published + [last];
    assert [w] + passed == [w] + [c] + published + [last];
  }

  lemma Moves(w: Writer, place: Place)
    requires Settled(w, w.n) && (place == Done || (place == Ready && w.at == Looped))
    ensures Steps([w] + [w.(at := place)]) && Settled(w.(at := place), w.n)
  {
  }

  /** The trace of a writer that leaves its loop. */
  method Stopped(trace: seq<Writer>) returns (r: seq<Writer>)
    requires Steps(trace) && Settled(trace[|trace| - 1], trace[|trace| - 1].n)
    ensures Steps(r) && r[0] == trace[0] && r[|r| - 1].at == Done
    ensures Settled(r[|r| - 1], trace[|trace| - 1].n)
  {
    var w := trace[|trace| - 1];
    hide Steps, Settled;
    Moves(w, Done);
    StepsJoin(trace, [w.(at := Done)]);
    r := trace + [w.(at := Done)];
  }

  lemma CommitsTurn(outcomes: seq<Outcome>, k: nat)
    requires k < |outcomes|
    ensures Commits(outcomes[k..]) ==
            (if outcomes[k].fails then 0 else 1) + if outcomes[k].late then 0 else Commits(outcomes[k + 1..])
  {
  }

  /** The writer's main loop; its trace is a run of the transition system that
      leaves nothing half done. */
  method WriterMain(outcomes: seq<Outcome>) returns (trace: seq<Writer>)
    ensures Steps(trace) && trace[0] == FRESH
    ensures (exists k :: 0 <= k < |outcomes| && outcomes[k].late) <==> trace[|trace| - 1].at == Done
    ensures Settled(trace[|trace| - 1], Commits(outcomes))
  {
    var w := FRESH;
    trace := [w];
    assert outcomes[0..] == outcomes;
    for k := 0 to |outcomes|
      invariant Steps(trace) && trace[0] == FRESH && trace[|trace| - 1] == w && w.at == Ready
      invariant forall i :: 0 <= i < k ==> !outcomes[i].late
      invariant Settled(w, w.n) && w.n + Commits(outcomes[k..]) == Commits(outcomes)
    {
      hide Steps, Settled, Commits;
      CommitsTurn(outcomes, k);
      if outcomes[k].fails {
        if outcomes[k].late {
          trace := Stopped(trace);
          return;
        }
        continue;
      }
      var passed := CommitPass(w);
      StepsJoin(trace, passed);
      trace := trace + passed;
      if outcomes[k].late {
        trace := Stopped(trace);
        return;
      }
      w := passed[|passed| - 1].(at := Ready);
      Moves(passed[|passed| - 1], Ready);
      StepsJoin(trace, [w]);
      trace := trace + [w];
    }
  }

  // ---- what reading a marker means ----

  /** A marker reads as a number exactly when its text, space around it aside, is that number
      in decimal with any zeros in front; a missing file cannot be read, a blank one is empty. */
  lemma MarkerSays(f: File, n: nat)
    ensures ReadMarker(f) == Unreadable <==> f == Absent
    ensures ReadMarker(f) == Empty <==> f.Text? && Blank(f.raw)
    ensures ReadMarker(f) == Value(n) <==>
              f.Text? && exists z: nat :: Padded(f.raw, Repeat('0', z) + Decimal(n))
  {
    if f.Text? {
      BlankStrips(f.raw);
      NumberText(f.raw, n);
    }
  }

  lemma NumberText(raw: string, n: nat)
    ensures ParseDigits(Strip(raw)) == Some(n) <==> exists z: nat :: Padded(raw, Repeat('0', z) + Decimal(n))
  {
    hide Strip, ParseDigits, Decimal, Repeat, Padded;
    var t := Strip(raw);
    StripSays(raw, t);
    NumeralSays(t, n);
    if z: nat :| Padded(raw, Repeat('0', z) + Decimal(n)) {
      NumeralTight(z, n);
      StripSays(raw, Repeat('0', z) + Decimal(n));
    }
  }

  lemma NumeralTight(z: nat, n: nat)
    ensures var t := Repeat('0', z) + Decimal(n); t != "" && !IsSpace(t[0]) && !IsSpace(t[|t| - 1])
  {
    DigitsAreNoSpace();
    hide IsSpace, Decimal;
  }
}
