/** The driver: markers read before and after the capture, rows counted in the
    restored database, and the verdict (scripts/sqlite-restore-rollback-proof.py,
    scripts/sqlite-backup-consistency-proof.py). */
module BackupVerdict {
  import opened Common
  import opened BackupWriters

  /** High-water marks in the order the writers are listed; no writer twice. */
  type Marks = seq<(string, nat)>

  ghost predicate Distinct(m: Marks) {
    forall i, j :: 0 <= i < j < |m| ==> m[i].0 != m[j].0
  }

  // ---- reading all markers ----

  datatype Progress = Raises(wid: string, why: Reading) | Progress(marks: Marks)

  ghost predicate FirstBad(markers: map<string, File>, wids: seq<string>, k: nat, wid: string, why: Reading)
    requires k < |wids| && forall j :: 0 <= j < |wids| ==> wids[j] in markers
  {
    wid == wids[k] && why == ReadMarker(markers[wid]) && !why.Value? &&
    forall j :: 0 <= j < k ==> ReadMarker(markers[wids[j]]).Value?
  }

  ghost predicate AllReadable(markers: map<string, File>, wids: seq<string>)
    requires forall k :: 0 <= k < |wids| ==> wids[k] in markers
  {
    forall k :: 0 <= k < |wids| ==> ReadMarker(markers[wids[k]]).Value?
  }

  /** The first marker that cannot be read decides; otherwise every writer has its number. */
  method ReadProgress(markers: map<string, File>, wids: seq<string>) returns (r: Progress)
    requires forall k :: 0 <= k < |wids| ==> wids[k] in markers
    ensures r.Progress? <==> AllReadable(markers, wids)
    ensures r.Progress? ==> |r.marks| == |wids|
    ensures r.Progress? ==>
              forall k :: 0 <= k < |wids| ==> r.marks[k] == (wids[k], ReadMarker(markers[wids[k]]).n)
    ensures r.Raises? ==> exists k :: 0 <= k < |wids| && FirstBad(markers, wids, k, r.wid, r.why)
  {
    hide ReadMarker;
    var out: Marks := [];
    for k := 0 to |wids|
      invariant |out| == k
      invariant forall j :: 0 <= j < k ==> ReadMarker(markers[wids[j]]).Value?
      invariant forall j :: 0 <= j < k ==> out[j] == (wids[j], ReadMarker(markers[wids[j]]).n)
    {
      var got := ReadMarker(markers[wids[k]]);
      if !got.Value? {
        assert FirstBad(markers, wids, k, wids[k], got);
        return Raises(wids[k], got);
      }
      out := out + [(wids[k], got.n)];
    }
    r := Progress(out);
  }

  /** The marker of each writer is one the run showed, at some time after the driver saw its START. */
  ghost predicate ReadAfterStart(run: seq<System>, seen: map<string, nat>, at: map<string, nat>,
                                 markers: map<string, File>, wids: seq<string>) {
    run != [] && forall k :: 0 <= k < |wids| ==>
      var w := wids[k];
      w in run[0] && w in markers && w in seen && w in at && seen[w] <= at[w] < |run| &&
      w in run[seen[w]] && run[seen[w]][w].start && w in run[at[w]] && markers[w] == run[at[w]][w].marker
  }

  /** Behind the START guard reading the markers never raises, at whatever times each is read,
      and every number is between 1 and the rows committed by then, at most one behind. */
  lemma ReadProgressSucceeds(run: seq<System>, seen: map<string, nat>, at: map<string, nat>,
                             markers: map<string, File>, wids: seq<string>)
    requires Run(Atomic, run) && ReadAfterStart(run, seen, at, markers, wids)
    ensures AllReadable(markers, wids)
    ensures forall k :: 0 <= k < |wids| ==>
              var n := ReadMarker(markers[wids[k]]).n;
              1 <= n <= run[at[wids[k]]][wids[k]].n <= n + 1
  {
    hide Run, ReadMarker;
    forall k | 0 <= k < |wids|
      ensures ReadMarker(markers[wids[k]]).Value?
      ensures var n := ReadMarker(markers[wids[k]]).n; 1 <= n <= run[at[wids[k]]][wids[k]].n <= n + 1
    {
      StartedIsReadable(run, seen[wids[k]], at[wids[k]], wids[k]);
    }
  }

  // ---- row accounting ----

  function Got(have: map<string, nat>, wid: string): nat {
    if wid in have then have[wid] else 0
  }

  /** `max(0, a - b)` */
  function Excess(a: int, b: int): nat {
    if a > b then a - b else 0
  }

  function Missing(need: Marks, have: map<string, nat>): nat {
    if need == [] then 0 else Excess(need[0].1, Got(have, need[0].0)) + Missing(need[1..], have)
  }

  function Surplus(need: Marks, have: map<string, nat>): nat {
    if need == [] then 0 else Excess(Got(have, need[0].0), need[0].1) + Surplus(need[1..], have)
  }

  /** The broken accounting: a loss and an impossibility cancel. */
  function AccountSigned(need: Marks, have: map<string, nat>): int {
    if need == [] then 0 else need[0].1 - Got(have, need[0].0) + AccountSigned(need[1..], have)
  }

  method AccountRows(need: Marks, have: map<string, nat>)
    returns (missing: nat, surplus: nat, detail: map<string, nat>)
    requires Distinct(need)
    ensures missing == Missing(need, have) && surplus == Surplus(need, have)
    ensures forall k :: 0 <= k < |need| ==>
              need[k].0 in detail && detail[need[k].0] == Excess(need[k].1, Got(have, need[k].0))
  {
    missing, surplus, detail := 0, 0, map[];
    for k := 0 to |need|
      invariant missing + Missing(need[k..], have) == Missing(need, have)
      invariant surplus + Surplus(need[k..], have) == Surplus(need, have)
      invariant forall j :: 0 <= j < k ==>
                  need[j].0 in detail && detail[need[j].0] == Excess(need[j].1, Got(have, need[j].0))
    {
      var (w, n) := need[k];
      var got := Got(have, w);
      detail := detail[w := Excess(n, got)];
      missing := missing + Excess(n, got);
      surplus := surplus + Excess(got, n);
      assert need[k..][1..] == need[k + 1..];
    }
  }

  lemma {:induction false} SignedIsDifference(need: Marks, have: map<string, nat>)
    ensures AccountSigned(need, have) == Missing(need, have) - Surplus(need, have)
  {
    if need != [] {
      SignedIsDifference(need[1..], have);
    }
  }

  /** No loss and no impossibility: every writer's count is exactly what is needed. */
  lemma {:induction false} AccountsAgree(need: Marks, have: map<string, nat>)
    ensures Missing(need, have) == 0 && Surplus(need, have) == 0 <==>
            forall k :: 0 <= k < |need| ==> Got(have, need[k].0) == need[k].1
  {
    if need != [] {
      AccountsAgree(need[1..], have);
      assert forall k :: 0 < k < |need| ==> need[k] == need[1..][k - 1];
    }
  }

  /** 107 rows lost by one writer behind 107 impossible rows of another. */
  lemma SignedCancels()
    ensures var need, have := [("w0", 200), ("w1", 200)], map["w0" := 93, "w1" := 307];
            AccountSigned(need, have) == 0 && Missing(need, have) == 107 && Surplus(need, have) == 107
  {
    var need: Marks, have := [("w0", 200), ("w1", 200)], map["w0" := 93, "w1" := 307];
    assert need[1..] == [("w1", 200)] && need[1..][1..] == [];
    SignedIsDifference(need, have);
  }

  // ---- verdicts ----

  datatype Verdict = Pass | Fail | Vacuous

  /** Rows of each writer in the restored database; `None` when it cannot be read. */
  type Restored = Option<map<string, set<int>>>

  function RowsOf(db: map<string, set<int>>, wid: string): set<int> {
    if wid in db then db[wid] else {}
  }

  /** `SELECT COUNT(*) ... WHERE wid = ? AND n <= ?` under the primary key. */
  function Count(rows: set<int>, n: int): nat {
    |UpTo(rows, n)|
  }

  function UpTo(rows: set<int>, n: int): set<int> {
    set r | r in rows && r <= n
  }

  function Counts(pre: Marks, db: map<string, set<int>>): map<string, nat> {
    if pre == [] then map[]
    else Counts(pre[1..], db)[pre[0].0 := Count(RowsOf(db, pre[0].0), pre[0].1)]
  }

  function Total(pre: Marks): nat {
    if pre == [] then 0 else pre[0].1 + Total(pre[1..])
  }

  method CountRows(pre: Marks, db: map<string, set<int>>) returns (have: map<string, nat>)
    requires Distinct(pre)
    ensures forall k :: 0 <= k < |pre| ==> pre[k].0 in have && have[pre[k].0] == Count(RowsOf(db, pre[k].0), pre[k].1)
  {
    have := map[];
    for k := 0 to |pre|
      invariant forall j :: 0 <= j < k ==>
                  pre[j].0 in have && have[pre[j].0] == Count(RowsOf(db, pre[j].0), pre[j].1)
    {
      have := have[pre[k].0 := Count(RowsOf(db, pre[k].0), pre[k].1)];
    }
  }

  /** Every writer's restored rows up to its mark are as many as the mark says. */
  ghost predicate CountsAgree(pre: Marks, db: map<string, set<int>>) {
    forall k :: 0 <= k < |pre| ==> Count(RowsOf(db, pre[k].0), pre[k].1) == pre[k].1
  }

  method SumMarks(pre: Marks) returns (total: nat)
    ensures total == Total(pre)
  {
    total := 0;
    for k := 0 to |pre|
      invariant total + Total(pre[k..]) == Total(pre)
    {
      total := total + pre[k].1;
      assert pre[k..][1..] == pre[k + 1..];
    }
  }

  /** The rollback driver's verdict, after every abort guard has passed. */
  method Judge(pre: Marks, restored: Restored, integrityOk: bool) returns (v: Verdict)
    requires Distinct(pre)
    ensures v == RollbackVerdict(pre, restored, integrityOk)
  {
    var ok := false;
    if restored.Some? {
      var have := CountRows(pre, restored.value);
      var missing, surplus, _ := AccountRows(pre, have);
      AccountsAgree(pre, have);
      assert CountsAgree(pre, restored.value) <==>
             forall k :: 0 <= k < |pre| ==> Got(have, pre[k].0) == pre[k].1;
      ok := integrityOk && missing == 0 && surplus == 0;
    }
    var total := SumMarks(pre);
    v := if ok && total == 0 then Vacuous else if ok then Pass else Fail;
  }

  ghost function RollbackVerdict(pre: Marks, restored: Restored, integrityOk: bool): Verdict {
    if restored.Some? && integrityOk && CountsAgree(pre, restored.value)
    then if Total(pre) == 0 then Vacuous else Pass
    else Fail
  }

  // ---- exactness ----

  ghost predicate Positive(rows: set<int>) {
    forall r :: r in rows ==> r >= 1
  }

  /** Every row at or below the mark is there. */
  ghost predicate AllPresent(pre: Marks, db: map<string, set<int>>) {
    forall k :: 0 <= k < |pre| ==> FirstRows(pre[k].1) <= RowsOf(db, pre[k].0)
  }

  /** Rows written by a writer are positive, so the count is full just when no row is missing. */
  lemma {:induction false} CountIsFull(rows: set<int>, n: nat)
    requires Positive(rows)
    ensures Count(rows, n) <= n
    ensures Count(rows, n) == n <==> FirstRows(n) <= rows
  {
    hide Count, FirstRows, Positive;
    if n == 0 {
      CountAtZero(rows);
      assert FirstRows(0) <= rows;
    } else {
      CountIsFull(rows, n - 1);
      CountStep(rows, n);
    }
  }

  lemma CountStep(rows: set<int>, n: nat)
    requires n > 0
    ensures Count(rows, n) == Count(rows, n - 1) + if n in rows then 1 else 0
    ensures FirstRows(n) <= rows <==> FirstRows(n - 1) <= rows && n in rows
  {
    assert UpTo(rows, n) == UpTo(rows, n - 1) + if n in rows then {n} else {};
  }

  lemma CountsFull(pre: Marks, db: map<string, set<int>>)
    requires AllPositive(db)
    ensures CountsAgree(pre, db) <==> AllPresent(pre, db)
  {
    hide Count, FirstRows;
    forall k | 0 <= k < |pre|
      ensures Count(RowsOf(db, pre[k].0), pre[k].1) == pre[k].1 <==> FirstRows(pre[k].1) <= RowsOf(db, pre[k].0)
    {
      CountIsFull(RowsOf(db, pre[k].0), pre[k].1);
    }
  }

  /** PASS holds exactly when the database is sound and every row at or below a
      pre-launch mark is present, something having been demanded at all. */
  lemma PassExactly(pre: Marks, db: map<string, set<int>>, integrityOk: bool)
    requires AllPositive(db)
    ensures RollbackVerdict(pre, Some(db), integrityOk) == Pass <==>
              integrityOk && AllPresent(pre, db) && Total(pre) > 0
    ensures RollbackVerdict(pre, Some(db), integrityOk) == Vacuous <==> integrityOk && Total(pre) == 0
  {
    hide CountsAgree, AllPresent, Total;
    CountsFull(pre, db);
    if Total(pre) == 0 {
      NothingDemanded(pre, db);
    }
  }

  lemma {:induction false} NothingDemanded(pre: Marks, db: map<string, set<int>>)
    requires Total(pre) == 0
    ensures AllPresent(pre, db)
  {
    if pre != [] {
      NothingDemanded(pre[1..], db);
      assert forall k :: 0 < k < |pre| ==> pre[k] == pre[1..][k - 1];
    }
  }

  /** Positive row numbers are exactly what the count needs: only then is it full just
      when no row is missing. */
  lemma CountExact(rows: set<int>)
    ensures Positive(rows) <==> forall n: nat :: Count(rows, n) == n <==> FirstRows(n) <= rows
  {
    hide Count, FirstRows;
    if Positive(rows) {
      forall n: nat ensures Count(rows, n) == n <==> FirstRows(n) <= rows {
        CountIsFull(rows, n);
      }
    } else {
      CountAtZero(rows);
      assert FirstRows(0) <= rows;
    }
  }

  lemma CountAtZero(rows: set<int>)
    ensures Count(rows, 0) == 0 <==> Positive(rows)
  {
    if r :| r in rows && r < 1 {
      assert r in UpTo(rows, 0);
    } else {
      assert UpTo(rows, 0) == {};
    }
  }

  /** With a row that is not positive there is a mark at which the count is full and a row is missing. */
  lemma {:induction false} SomeMarkHides(rows: set<int>, n: nat) returns (m: nat)
    requires !Positive(rows) && n <= Count(rows, n)
    ensures m > 0 && Count(rows, m) == m && !(FirstRows(m) <= rows)
    decreases |rows| - n
  {
    assert UpTo(rows, n) <= rows;
    SubsetSize(UpTo(rows, n), rows);
    if Count(rows, n) == n {
      m := n;
      FullCountHides(rows, m);
    } else {
      CountStep(rows, n + 1);
      m := SomeMarkHides(rows, n + 1);
    }
  }

  lemma {:induction false} SubsetSize<T>(a: set<T>, b: set<T>)
    requires a <= b
    ensures |a| <= |b|
  {
    if a != {} {
      var x :| x in a;
      SubsetSize(a - {x}, b - {x});
    }
  }

  lemma FullCountHides(rows: set<int>, m: nat)
    requires !Positive(rows) && Count(rows, m) == m
    ensures m > 0 && !(FirstRows(m) <= rows)
  {
    hide FirstRows;
    CountAtZero(rows);
    if FirstRows(m) <= rows {
      var first: set<int> := FirstRows(m);
      assert first + UpTo(rows, 0) <= UpTo(rows, m) && first * UpTo(rows, 0) == {};
      SubsetSize(first + UpTo(rows, 0), UpTo(rows, m));
    }
  }

  ghost predicate AllPositive(db: map<string, set<int>>) {
    forall w :: w in db ==> Positive(db[w])
  }

  /** PASS means that no row at or below a mark is missing - for all marks - exactly when
      the database holds no row number below 1. */
  lemma PassExact(db: map<string, set<int>>)
    ensures AllPositive(db) <==>
              forall pre: Marks :: RollbackVerdict(pre, Some(db), true) == Pass <==>
                  AllPresent(pre, db) && Total(pre) > 0
  {
    hide RollbackVerdict, AllPresent, Total;
    if AllPositive(db) {
      forall pre: Marks
        ensures RollbackVerdict(pre, Some(db), true) == Pass <==> AllPresent(pre, db) && Total(pre) > 0
      {
        PassExactly(pre, db, true);
      }
    } else {
      var w :| w in db && !Positive(db[w]);
      CountAtZero(db[w]);
      var m := SomeMarkHides(db[w], 0);
      OneMark(w, m, db);
    }
  }

  lemma OneMark(w: string, m: nat, db: map<string, set<int>>)
    requires w in db
    ensures var pre: Marks := [(w, m)];
            Total(pre) == m && (AllPresent(pre, db) <==> FirstRows(m) <= db[w]) &&
            (RollbackVerdict(pre, Some(db), true) == Fail <==> Count(db[w], m) != m) &&
            (RollbackVerdict(pre, Some(db), true) == Pass <==> Count(db[w], m) == m && m > 0)
  {
    hide Count, FirstRows;
    var pre: Marks := [(w, m)];
    assert pre[1..] == [];
    assert Total(pre) == m;
    assert pre[0].0 == w && pre[0].1 == m;
  }

  /** A row no writer can have written - number 0 - hides a missing one. */
  lemma RowZeroHides()
    ensures var pre, db := [("w0", 2)], map["w0" := {0, 2}];
            RollbackVerdict(pre, Some(db), true) == Pass && !AllPresent(pre, db)
  {
    var pre: Marks, db := [("w0", 2)], map["w0" := {0, 2}];
    assert pre[1..] == [];
    assert UpTo({0, 2}, 2) == {0, 2} && |{0, 2}| == 2;
    assert Count(RowsOf(db, pre[0].0), pre[0].1) == 2;
    assert Total(pre) == 2;
    assert 1 in FirstRows(2) && 1 !in {0, 2};
    assert pre[0].1 == 2;
    assert !(FirstRows(pre[0].1) <= RowsOf(db, pre[0].0));
  }

  // ---- the driver against any run ----

  /** The marks the driver read before launch: writer `w` at state `readAt[w]`, after its START was seen. */
  ghost predicate ReadBeforeLaunch(run: seq<System>, launch: nat, seen: map<string, nat>, readAt: map<string, nat>,
                                   pre: Marks) {
    launch < |run| && forall k :: 0 <= k < |pre| ==>
      var w := pre[k].0;
      w in run[0] && w in seen && w in readAt && seen[w] <= readAt[w] <= launch &&
      w in run[seen[w]] && run[seen[w]][w].start &&
      w in run[readAt[w]] && ReadMarker(run[readAt[w]][w].marker) == Value(pre[k].1)
  }

  /** The snapshot holds at least the rows committed when it was launched, and only rows of writers. */
  ghost predicate HoldsLaunchRows(s: System, pre: Marks, db: map<string, set<int>>) {
    AllPositive(db) &&
    forall k :: 0 <= k < |pre| ==> pre[k].0 in s && s[pre[k].0].rows <= RowsOf(db, pre[k].0)
  }

  /** Any snapshot that holds the rows committed at launch passes. */
  lemma SnapshotPasses(run: seq<System>, launch: nat, seen: map<string, nat>, readAt: map<string, nat>,
                       pre: Marks, db: map<string, set<int>>)
    requires Run(Atomic, run) && pre != [] && ReadBeforeLaunch(run, launch, seen, readAt, pre)
    requires HoldsLaunchRows(run[launch], pre, db)
    ensures RollbackVerdict(pre, Some(db), true) == Pass
  {
    hide RollbackVerdict, ReadMarker, Run, Total;
    forall k | 0 <= k < |pre| ensures FirstRows(pre[k].1) <= RowsOf(db, pre[k].0) && pre[k].1 > 0 {
      var w := pre[k].0;
      StartedIsReadable(run, seen[w], readAt[w], w);
      RunMonotone(run, readAt[w], launch, w);
    }
    PositiveTotal(pre);
    PassExactly(pre, db, true);
  }

  lemma PositiveTotal(pre: Marks)
    requires pre != [] && pre[0].1 > 0
    ensures Total(pre) > 0
  {
  }

  /** Across a window the marks move by the rows committed in it, give or take one. */
  lemma WindowAccuracy(run: seq<System>, seen: nat, i: nat, j: nat, wid: string)
    requires Run(Atomic, run) && seen <= i <= j < |run| && wid in run[0] && wid in run[seen] && run[seen][wid].start
    ensures wid in run[i] && wid in run[j]
    ensures var (a, b) := (ReadMarker(run[i][wid].marker), ReadMarker(run[j][wid].marker));
            a.Value? && b.Value? && a.n <= b.n &&
            var commits := run[j][wid].n - run[i][wid].n;
            -1 <= (b.n - a.n) - commits <= 1
  {
    hide ReadMarker;
    StartedIsReadable(run, seen, i, wid);
    RunMonotone(run, seen, i, wid);
    StartedIsReadable(run, seen, j, wid);
    RunMonotone(run, i, j, wid);
    StartedShows(run[i][wid]);
    StartedShows(run[j][wid]);
    ReadShown(run[i][wid].marker, Shown(run[i][wid]));
    ReadShown(run[j][wid].marker, Shown(run[j][wid]));
  }

  /** A mark that rose by two across the window proves a commit made in it ... */
  lemma RiseOfTwoIsACommit(run: seq<System>, seen: nat, i: nat, j: nat, wid: string)
    requires Run(Atomic, run) && seen <= i <= j < |run| && wid in run[0] && wid in run[seen] && run[seen][wid].start
    requires wid in run[i] && wid in run[j]
    requires var (a, b) := (ReadMarker(run[i][wid].marker), ReadMarker(run[j][wid].marker));
             a.Value? && b.Value? && b.n >= a.n + 2
    ensures run[i][wid].n < run[j][wid].n
  {
    hide ReadMarker;
    WindowAccuracy(run, seen, i, j, wid);
  }

  /** ... and a rise of one does not.  The liveness guard asks for a mark that rose; one step of it can be the late
      publication of a row committed before the window. */
  lemma RisingMarkNeedsNoCommit() returns (run: seq<System>, i: nat, j: nat)
    ensures Run(Atomic, run) && i <= j < |run| && "w0" in run[i] && "w0" in run[j] && run[i]["w0"].start
    ensures var a, b := run[i]["w0"], run[j]["w0"];
            ReadMarker(a.marker) == Value(1) && ReadMarker(b.marker) == Value(2) && a.n == b.n == 2
  {
    hide ReadMarker;
    var a := FRESH.(at := Committed, n := 1, rows := {} + {1});
    var b := a.(at := TmpOpen, tmp := Text(""));
    var c := b.(at := TmpWritten, tmp := Text(Decimal(1)));
    var d := c.(at := Published, marker := Text(Decimal(1)), tmp := Absent);
    var e := d.(at := Looped, start := true);
    var f := e.(at := Ready);
    var g := f.(at := Committed, n := 2, rows := {1} + {2});
    var h := g.(at := TmpOpen, tmp := Text(""));
    var k := h.(at := TmpWritten, tmp := Text(Decimal(2)));
    var l := k.(at := Published, marker := Text(Decimal(2)), tmp := Absent);
    var ws := [FRESH, a, b, c, d, e, f, g, h, k, l];
    run := seq(11, x requires 0 <= x < 11 => map["w0" := ws[x]]);
    i, j := 7, 10;
    forall x | 0 <= x < 10 ensures Step(Atomic, run[x], run[x + 1]) {
      assert Next(Atomic, ws[x], ws[x + 1]);
      assert run[x]["w0"] == ws[x] && run[x + 1]["w0"] == ws[x + 1];
      assert run[x + 1] == run[x]["w0" := ws[x + 1]];
    }
    ReadShown(g.marker, 1);
    ReadShown(l.marker, 2);
  }

  // ---- the archive driver ----

  /** The archive proof's total: signed, and only for writers of which rows are needed. */
  function ArchiveMissing(pre: Marks, db: map<string, set<int>>): int {
    if pre == [] then 0
    else
      (if pre[0].1 <= 0 then 0 else pre[0].1 - Count(RowsOf(db, pre[0].0), pre[0].1)) + ArchiveMissing(pre[1..], db)
  }

  method ArchiveJudge(pre: Marks, restored: Restored, integrityOk: bool, quiescent: bool) returns (v: Verdict)
    ensures v == ArchiveVerdict(pre, restored, integrityOk, quiescent)
  {
    var ok := false;
    if restored.Some? {
      var missing := 0;
      for k := 0 to |pre|
        invariant missing + ArchiveMissing(pre[k..], restored.value) == ArchiveMissing(pre, restored.value)
      {
        var need := pre[k].1;
        if need > 0 {
          missing := missing + (need - Count(RowsOf(restored.value, pre[k].0), need));
        }
        assert pre[k..][1..] == pre[k + 1..];
      }
      ok := integrityOk && missing == 0;
    }
    var total := SumMarks(pre);
    v := if ok && !quiescent && total == 0 then Vacuous else if ok then Pass else Fail;
  }

  function ArchiveVerdict(pre: Marks, restored: Restored, integrityOk: bool, quiescent: bool): Verdict {
    if restored.Some? && integrityOk && ArchiveMissing(pre, restored.value) == 0
    then if !quiescent && Total(pre) == 0 then Vacuous else Pass
    else Fail
  }

  lemma {:induction false} ArchiveMissingPositive(pre: Marks, db: map<string, set<int>>)
    requires AllPositive(db)
    ensures ArchiveMissing(pre, db) >= 0
    ensures ArchiveMissing(pre, db) == 0 <==> CountsAgree(pre, db)
  {
    hide Count;
    if pre != [] {
      ArchiveMissingPositive(pre[1..], db);
      CountIsFull(RowsOf(db, pre[0].0), pre[0].1);
      assert forall k :: 0 < k < |pre| ==> pre[k] == pre[1..][k - 1];
    }
  }

  /** On rows that writers can have written the two drivers agree ... */
  lemma DriversAgree(pre: Marks, db: map<string, set<int>>, integrityOk: bool)
    requires AllPositive(db)
    ensures ArchiveVerdict(pre, Some(db), integrityOk, false) == RollbackVerdict(pre, Some(db), integrityOk)
  {
    hide ArchiveMissing, CountsAgree, Total;
    ArchiveMissingPositive(pre, db);
  }

  /** ... and on no others: the two drivers agree for all marks exactly when no row number is below 1. */
  lemma DriversAgreeExactly(db: map<string, set<int>>)
    ensures AllPositive(db) <==>
              forall pre: Marks, ok: bool :: ArchiveVerdict(pre, Some(db), ok, false) ==
                  RollbackVerdict(pre, Some(db), ok)
  {
    hide ArchiveVerdict, RollbackVerdict, Total, AllPresent;
    if AllPositive(db) {
      forall pre: Marks, ok: bool
        ensures ArchiveVerdict(pre, Some(db), ok, false) == RollbackVerdict(pre, Some(db), ok)
      {
        DriversAgree(pre, db, ok);
      }
    } else {
      var w :| w in db && !Positive(db[w]);
      CountAtZero(db[w]);
      OneMark(w, 0, db);
      NothingAsked(w, db);
      var pre: Marks := [(w, 0)];
      assert ArchiveVerdict(pre, Some(db), true, false) != RollbackVerdict(pre, Some(db), true);
    }
  }

  lemma NothingAsked(w: string, db: map<string, set<int>>)
    ensures var pre: Marks := [(w, 0)]; ArchiveVerdict(pre, Some(db), true, false) == Vacuous
  {
    var pre: Marks := [(w, 0)];
    assert pre[1..] == [];
    assert Total(pre) == 0 && ArchiveMissing(pre, db) == 0;
  }

  /** On rows that are not positive the signed total lets an impossible row of one writer pay for a lost row of
      another. */
  lemma ArchiveCancels()
    ensures var pre, db := [("w0", 1), ("w1", 1)], map["w0" := {}, "w1" := {0, 1}];
            ArchiveVerdict(pre, Some(db), true, false) == Pass && RollbackVerdict(pre, Some(db), true) == Fail
  {
    var pre: Marks, db: map<string, set<int>> := [("w0", 1), ("w1", 1)], map["w0" := {}, "w1" := {0, 1}];
    assert UpTo({}, 1) == {} && UpTo({0, 1}, 1) == {0, 1} && |{0, 1}| == 2;
    assert pre[1..] == [("w1", 1)] && pre[1..][1..] == [];
    assert Count(RowsOf(db, pre[0].0), pre[0].1) == 0;
    assert Count(RowsOf(db, pre[1].0), pre[1].1) == 2;
    assert ArchiveMissing(pre[1..], db) == -1;
    assert Total(pre) == 2;
  }

  // ---- what a verdict says of the restored database, row by row ----

  /** No row number below 1 in any writer's rows. */
  ghost predicate RowsFromOne(db: map<string, set<int>>) {
    forall w, r :: w in db && r in db[w] ==> 1 <= r
  }

  /** Each row from 1 up to each mark is in the database. */
  ghost predicate NoRowLost(pre: Marks, db: map<string, set<int>>) {
    forall k, r :: 0 <= k < |pre| && 1 <= r <= pre[k].1 ==> HasRow(db, pre[k].0, r)
  }

  ghost predicate HasRow(db: map<string, set<int>>, wid: string, r: int) {
    wid in db && r in db[wid]
  }

  /** Some writer had committed a row before the capture. */
  ghost predicate Demanded(pre: Marks) {
    exists k :: 0 <= k < |pre| && pre[k].1 > 0
  }

  lemma {:induction false} DemandedTotal(pre: Marks)
    ensures Total(pre) > 0 <==> Demanded(pre)
  {
    if pre != [] {
      DemandedTotal(pre[1..]);
      assert forall k :: 0 < k < |pre| ==> pre[k] == pre[1..][k - 1];
    }
  }

  lemma PresentRaw(pre: Marks, db: map<string, set<int>>)
    ensures AllPresent(pre, db) <==> NoRowLost(pre, db)
  {
    if NoRowLost(pre, db) {
      forall k | 0 <= k < |pre| ensures FirstRows(pre[k].1) <= RowsOf(db, pre[k].0) {
        forall r | r in FirstRows(pre[k].1) ensures r in RowsOf(db, pre[k].0) {
          assert HasRow(db, pre[k].0, r);
        }
      }
    }
    if AllPresent(pre, db) {
      forall k, r | 0 <= k < |pre| && 1 <= r <= pre[k].1 ensures HasRow(db, pre[k].0, r) {
        assert r in FirstRows(pre[k].1);
      }
    }
  }

  /** A database that cannot be read, or does not pass the integrity check, fails - in both
      drivers, in every arm and whatever the marks are. */
  lemma UnsoundFails(pre: Marks, restored: Restored, integrityOk: bool, quiescent: bool)
    requires restored.None? || !integrityOk
    ensures RollbackVerdict(pre, restored, integrityOk) == Fail
    ensures ArchiveVerdict(pre, restored, integrityOk, quiescent) == Fail
  {
  }

  /** The rollback driver passes a restore of which something was demanded exactly when the database is
      readable and sound and has every row up to the marks; it says "vacuous" exactly when the database is
      sound and nothing was demanded. */
  lemma RollbackSays(pre: Marks, restored: Restored, integrityOk: bool)
    requires restored.Some? ==> RowsFromOne(restored.value)
    ensures RollbackVerdict(pre, restored, integrityOk) == Pass <==>
              restored.Some? && integrityOk && NoRowLost(pre, restored.value) && Demanded(pre)
    ensures RollbackVerdict(pre, restored, integrityOk) == Vacuous <==>
              restored.Some? && integrityOk && !Demanded(pre)
  {
    hide RollbackVerdict, Total, AllPresent, NoRowLost, Demanded;
    DemandedTotal(pre);
    if restored.Some? {
      PresentRaw(pre, restored.value);
      PassExactly(pre, restored.value, integrityOk);
    } else {
      UnsoundFails(pre, restored, integrityOk, false);
    }
  }

  /** The archive driver says the same, except that its quiescent arm passes where nothing was demanded. */
  lemma ArchiveSays(pre: Marks, restored: Restored, integrityOk: bool, quiescent: bool)
    requires restored.Some? ==> RowsFromOne(restored.value)
    ensures ArchiveVerdict(pre, restored, integrityOk, quiescent) == Pass <==>
              restored.Some? && integrityOk && NoRowLost(pre, restored.value) && (quiescent || Demanded(pre))
    ensures ArchiveVerdict(pre, restored, integrityOk, quiescent) == Vacuous <==>
              restored.Some? && integrityOk && !quiescent && !Demanded(pre)
  {
    hide RollbackVerdict, Total, ArchiveMissing, AllPresent, NoRowLost, Demanded, CountsAgree;
    DemandedTotal(pre);
    if restored.Some? {
      var db := restored.value;
      PresentRaw(pre, db);
      ArchiveMissingPositive(pre, db);
      CountsFull(pre, db);
      if Total(pre) == 0 {
        NothingDemanded(pre, db);
      }
    } else {
      UnsoundFails(pre, restored, integrityOk, quiescent);
    }
  }
}
