/** Whether a release may be cut, judged from parsed ledger files and the trackers' state
    (scripts/check-release-readiness.py). The workspace version, the parser and the tracker
    queries are inputs. */
module ReleaseGate {
  import opened Common
  import opened StringOrder

  datatype Kind = Defect | Feature | Task

  datatype Criterion = Criterion(id: string, state: string, owner: string, handoff: string)

  datatype Record = Record(path: string, repo: string, issue: string, kind: string, criteria: seq<Criterion>)

  /** What reading one ledger file gave; `clean` when the parser had nothing to complain of. */
  datatype LedgerFile = LedgerFile(path: string, record: Option<Record>, clean: bool)

  datatype Tracker = Tracker(
    labels: map<string, map<nat, set<string>>>,
    milestones: map<string, map<nat, string>>,
    states: map<string, string>)

  datatype Mode = Offline | Unreachable | Live(tracker: Tracker)

  datatype Problem =
    | Unparsed(path: string)
    | NoKind(path: string)
    | UnknownKind(path: string, kind: string)
    | BadHandoff(path: string, id: string, handoff: string)
    | Misclassified(path: string, labels: set<string>)
    | MissingTarget(handoff: string)
    | ClosedUnledgered(handoff: string)
    | ClosedOwing(handoff: string, ids: seq<string>)
    | Unmilestoned(repo: string, issue: string)

  /** A criterion still owed, with the record it stands in. */
  datatype Item = Item(record: Record, criterion: Criterion)

  datatype Reason = NoRelease | NoLedger | NoFiles | NoCriteria | NothingInScope | TrackerDown

  datatype Outcome =
    | Refused(reason: Reason)
    | Judged(problems: seq<Problem>, outstanding: seq<Item>, undecomposed: seq<Item>,
             deferred: map<string, set<string>>)

  function ExitCode(o: Outcome): nat {
    match o
    case Refused(_) => 2
    case Judged(problems, outstanding, undecomposed, _) =>
      if problems != [] || outstanding != [] || undecomposed != [] then 1 else 0
  }

  // ---- vocabulary ----

  const BugLabels: set<string> := {"bug", "defect", "type:bug", "kind/bug", "regression"}

  predicate Open(state: string) {
    state == "not-met" || state == "blocked"
  }

  predicate Foreign(owner: string) {
    owner == "desktop" || owner == "flux" || owner == "maintainer" || owner == "reporter"
  }

  function Classify(kind: string): Option<Kind> {
    var k := Strip(kind);
    if k == "defect" then Some(Defect)
    else if k == "feature" then Some(Feature)
    else if k == "task" then Some(Task)
    else None
  }

  function HandoffOf(c: Criterion): string {
    Strip(c.handoff)
  }

  predicate NameChar(c: char) {
    'a' <= c <= 'z' || 'A' <= c <= 'Z' || '0' <= c <= '9' || c == '_' || c == '.' || c == '-'
  }

  predicate RefAt(ref: string, slash: nat, hash: nat)
    requires slash < |ref| && hash < |ref|
  {
    0 < slash && slash + 1 < hash < |ref| - 1 && ref[slash] == '/' && ref[hash] == '#' &&
    (forall k :: 0 <= k < hash ==> k == slash || NameChar(ref[k])) &&
    forall k :: hash < k < |ref| ==> '0' <= ref[k] <= '9'
  }

  /** `<owner>/<repo>#<number>` */
  predicate WellFormed(ref: string) {
    exists slash, hash :: 0 <= slash < |ref| && 0 <= hash < |ref| && RefAt(ref, slash, hash)
  }

  /** The name under which handoffs refer to a record. */
  function RefOf(r: Record): string {
    r.repo + "#" + r.issue
  }

  function LabelsOf(t: Tracker, r: Record): Option<set<string>> {
    match ParseDigits(r.issue)
    case None => None
    case Some(n) =>
      if r.repo != "" && r.repo in t.labels && n in t.labels[r.repo] then Some(t.labels[r.repo][n]) else None
  }

  function MilestoneOf(t: Tracker, r: Record): Option<string> {
    match ParseDigits(r.issue)
    case None => None
    case Some(n) =>
      if r.repo != "" && r.repo in t.milestones && n in t.milestones[r.repo] && t.milestones[r.repo][n] != ""
      then Some(t.milestones[r.repo][n]) else None
  }

  function RecordsOf(files: seq<LedgerFile>): seq<Record> {
    if files == [] then []
    else
      var f := files[|files| - 1];
      RecordsOf(files[..|files| - 1]) + if f.record.Some? then [f.record.value] else []
  }

  /** The kind by path; of two records for one path the later one counts. */
  function KindsOf(records: seq<Record>, n: nat): map<string, Option<Kind>>
    requires n <= |records|
  {
    if n == 0 then map[] else KindsOf(records, n - 1)[records[n - 1].path := Classify(records[n - 1].kind)]
  }

  lemma {:induction false} KindsFromRecords(records: seq<Record>, n: nat)
    requires n <= |records|
    ensures forall r :: r in records[..n] ==> r.path in KindsOf(records, n)
    ensures forall p :: p in KindsOf(records, n) ==>
              exists r :: r in records[..n] && r.path == p && KindsOf(records, n)[p] == Classify(r.kind)
  {
    hide Classify;
    if n > 0 {
      KindsFromRecords(records, n - 1);
      assert records[..n] == records[..n - 1] + [records[n - 1]];
    }
  }

  predicate Has(kinds: map<string, Option<Kind>>, r: Record, kind: Kind) {
    r.path in kinds && kinds[r.path] == Some(kind)
  }

  // ---- what is owed ----

  /** Core still owes the criterion. */
  predicate OwedByCore(c: Criterion) {
    c.state == "not-met" && c.owner == "core"
  }

  /** The criterion was handed out of the lane with nothing carrying it. */
  predicate OwedElsewhere(c: Criterion) {
    Open(c.state) && Foreign(c.owner) && HandoffOf(c) == ""
  }

  predicate Owes(core: bool, c: Criterion) {
    if core then OwedByCore(c) else OwedElsewhere(c)
  }

  function OwedIn(core: bool, r: Record, n: nat): seq<Item>
    requires n <= |r.criteria|
  {
    if n == 0 then []
    else
      var c := r.criteria[n - 1];
      OwedIn(core, r, n - 1) + if Owes(core, c) then [Item(r, c)] else []
  }

  /** What the defects among the first `n` records owe, in order. */
  function Owed(core: bool, records: seq<Record>, kinds: map<string, Option<Kind>>, n: nat): seq<Item>
    requires n <= |records|
  {
    if n == 0 then []
    else
      var r := records[n - 1];
      Owed(core, records, kinds, n - 1) + if Has(kinds, r, Defect) then OwedIn(core, r, |r.criteria|) else []
  }

  /** The items under this release's milestone, in order. */
  function InScope(items: seq<Item>, t: Tracker, release: string): seq<Item> {
    if items == [] then []
    else
      var i := items[|items| - 1];
      InScope(items[..|items| - 1], t, release) + if MilestoneOf(t, i.record) == Some(release) then [i] else []
  }

  // ---- problems ----

  ghost predicate FileProblem(files: seq<LedgerFile>, p: Problem) {
    p.Unparsed? && exists f :: f in files && !f.clean && f.path == p.path
  }

  predicate BadKindOf(r: Record, p: Problem) {
    Classify(r.kind).None? && p == if Strip(r.kind) == "" then NoKind(r.path) else UnknownKind(r.path, Strip(r.kind))
  }

  ghost predicate KindProblem(records: seq<Record>, n: nat, p: Problem)
    requires n <= |records|
  {
    exists k :: 0 <= k < n && BadKindOf(records[k], p)
  }

  /** Some defect's criterion names `ref` as its handoff. */
  ghost predicate HandsTo(records: seq<Record>, kinds: map<string, Option<Kind>>, n: nat, ref: string)
    requires n <= |records|
  {
    ref != "" &&
    exists r, c :: r in records[..n] && Has(kinds, r, Defect) && c in r.criteria && HandoffOf(c) == ref
  }

  predicate BadHandoffIn(r: Record, c: Criterion, p: Problem) {
    HandoffOf(c) != "" && !WellFormed(HandoffOf(c)) && p == BadHandoff(r.path, c.id, HandoffOf(c))
  }

  ghost predicate HandoffProblem(records: seq<Record>, kinds: map<string, Option<Kind>>, n: nat, p: Problem)
    requires n <= |records|
  {
    exists r, c :: r in records[..n] && Has(kinds, r, Defect) && c in r.criteria && BadHandoffIn(r, c, p)
  }

  predicate Hides(t: Tracker, kinds: map<string, Option<Kind>>, r: Record) {
    (Has(kinds, r, Feature) || Has(kinds, r, Task)) &&
    LabelsOf(t, r).Some? && LabelsOf(t, r).value * BugLabels != {}
  }

  predicate MislabelOf(t: Tracker, kinds: map<string, Option<Kind>>, r: Record, p: Problem) {
    Hides(t, kinds, r) && p == Misclassified(r.path, LabelsOf(t, r).value * BugLabels)
  }

  ghost predicate LabelProblem(t: Tracker, records: seq<Record>, kinds: map<string, Option<Kind>>, n: nat, p: Problem)
    requires n <= |records|
  {
    exists k :: 0 <= k < n && MislabelOf(t, kinds, records[k], p)
  }

  predicate FirstNamed(records: seq<Record>, ref: string, k: int) {
    0 <= k < |records| && RefOf(records[k]) == ref && forall j :: 0 <= j < k ==> RefOf(records[j]) != ref
  }

  function OpenIds(cs: seq<Criterion>): (ids: seq<string>)
    ensures ids == [] <==> forall c :: c in cs ==> !Open(c.state)
  {
    if cs == [] then []
    else
      var c := cs[|cs| - 1];
      assert cs == cs[..|cs| - 1] + [c];
      OpenIds(cs[..|cs| - 1]) + if Open(c.state) then [c.id] else []
  }

  /** What is wrong with the target of a well-formed handoff, if anything. */
  ghost predicate TargetProblem(t: Tracker, records: seq<Record>, ref: string, p: Problem) {
    if ref !in t.states then p == MissingTarget(ref)
    else
      t.states[ref] == "closed" &&
      if forall r :: r in records ==> RefOf(r) != ref then p == ClosedUnledgered(ref)
      else exists k :: FirstNamed(records, ref, k) && OpenIds(records[k].criteria) != [] &&
                       p == ClosedOwing(ref, OpenIds(records[k].criteria))
  }

  predicate Orphaned(t: Tracker, i: Item, p: Problem) {
    MilestoneOf(t, i.record).None? && p == Unmilestoned(i.record.repo, i.record.issue)
  }

  ghost predicate ScopeProblem(t: Tracker, items: seq<Item>, n: nat, p: Problem)
    requires n <= |items|
  {
    exists k :: 0 <= k < n && Orphaned(t, items[k], p)
  }

  // ---- the gate, section by section ----

  method ReadFiles(files: seq<LedgerFile>) returns (records: seq<Record>, problems: seq<Problem>)
    ensures records == RecordsOf(files)
    ensures forall p :: p in problems <==> FileProblem(files, p)
  {
    records, problems := [], [];
    for n := 0 to |files|
      invariant records == RecordsOf(files[..n])
      invariant forall p :: p in problems <==> FileProblem(files[..n], p)
    {
      var f := files[n];
      assert files[..n + 1] == files[..n] + [f];
      assert files[..n + 1][..n] == files[..n];
      if !f.clean {
        problems := problems + [Unparsed(f.path)];
      }
      if f.record.Some? {
        records := records + [f.record.value];
      }
    }
    assert files[..|files|] == files;
  }

  method ClassifyAll(records: seq<Record>) returns (kinds: map<string, Option<Kind>>, problems: seq<Problem>)
    ensures kinds == KindsOf(records, |records|)
    ensures forall p :: p in problems <==> KindProblem(records, |records|, p)
  {
    hide Classify, Strip;
    kinds, problems := map[], [];
    for n := 0 to |records|
      invariant kinds == KindsOf(records, n)
      invariant forall p :: p in problems <==> KindProblem(records, n, p)
    {
      var r := records[n];
      var kind := Classify(r.kind);
      if kind.None? {
        problems := problems + [if Strip(r.kind) == "" then NoKind(r.path) else UnknownKind(r.path, Strip(r.kind))];
      }
      kinds := kinds[r.path := kind];
    }
  }

  method CountCriteria(records: seq<Record>) returns (count: nat)
    ensures count == 0 <==> forall r :: r in records ==> r.criteria == []
  {
    count := 0;
    for n := 0 to |records|
      invariant count == 0 <==> forall k :: 0 <= k < n ==> records[k].criteria == []
    {
      count := count + |records[n].criteria|;
    }
  }

  /** What one defect adds to the blocking set. */
  method BlockingOf(r: Record)
    returns (core: seq<Item>, elsewhere: seq<Item>, refs: set<string>, problems: seq<Problem>)
    ensures core == OwedIn(true, r, |r.criteria|)
    ensures elsewhere == OwedIn(false, r, |r.criteria|)
    ensures forall ref :: ref in refs <==> WellFormed(ref) && exists c :: c in r.criteria && HandoffOf(c) == ref
    ensures forall p :: p in problems <==> exists c :: c in r.criteria && BadHandoffIn(r, c, p)
  {
    hide HandoffOf;
    core, elsewhere, refs, problems := [], [], {}, [];
    for n := 0 to |r.criteria|
      invariant core == OwedIn(true, r, n) && elsewhere == OwedIn(false, r, n)
      invariant forall ref :: ref in refs <==>
                WellFormed(ref) && exists k :: 0 <= k < n && HandoffOf(r.criteria[k]) == ref
      invariant forall p :: p in problems <==> exists k :: 0 <= k < n && BadHandoffIn(r, r.criteria[k], p)
    {
      var c := r.criteria[n];
      assert r.criteria[..n + 1] == r.criteria[..n] + [c];
      var ref := HandoffOf(c);
      EmptyIsMalformed();
      if ref != "" {
        if !WellFormed(ref) {
          problems := problems + [BadHandoff(r.path, c.id, ref)];
        } else {
          refs := refs + {ref};
        }
      }
      hide WellFormed;
      if !Open(c.state) {
        continue;
      }
      if c.owner == "core" {
        if c.state == "not-met" {
          core := core + [Item(r, c)];
        }
        continue;
      }
      if Foreign(c.owner) && ref == "" {
        elsewhere := elsewhere + [Item(r, c)];
      }
    }
    assert r.criteria[..|r.criteria|] == r.criteria;
  }

  lemma EmptyIsMalformed()
    ensures !WellFormed("")
  {
  }

  method BlockingSet(records: seq<Record>, kinds: map<string, Option<Kind>>)
    returns (core: seq<Item>, elsewhere: seq<Item>, refs: set<string>, problems: seq<Problem>)
    ensures core == Owed(true, records, kinds, |records|)
    ensures elsewhere == Owed(false, records, kinds, |records|)
    ensures forall ref :: ref in refs <==> WellFormed(ref) && HandsTo(records, kinds, |records|, ref)
    ensures forall p :: p in problems <==> HandoffProblem(records, kinds, |records|, p)
  {
    hide HandoffOf, WellFormed, BadHandoffIn, OwedIn, Has;
    core, elsewhere, refs, problems := [], [], {}, [];
    for n := 0 to |records|
      invariant core == Owed(true, records, kinds, n) && elsewhere == Owed(false, records, kinds, n)
      invariant forall ref :: ref in refs <==> WellFormed(ref) && HandsTo(records, kinds, n, ref)
      invariant forall p :: p in problems <==> HandoffProblem(records, kinds, n, p)
    {
      var r := records[n];
      assert records[..n + 1] == records[..n] + [r];
      EmptyIsMalformed();
      if !Has(kinds, r, Defect) {
        continue;
      }
      var c, e, h, p := BlockingOf(r);
      core, elsewhere, refs, problems := core + c, elsewhere + e, refs + h, problems + p;
    }
  }

  method CrossCheck(t: Tracker, records: seq<Record>, kinds: map<string, Option<Kind>>)
    returns (problems: seq<Problem>)
    ensures forall p :: p in problems <==> LabelProblem(t, records, kinds, |records|, p)
  {
    hide LabelsOf, Has;
    problems := [];
    for n := 0 to |records|
      invariant forall p :: p in problems <==> LabelProblem(t, records, kinds, n, p)
    {
      var r := records[n];
      var got := LabelsOf(t, r);
      if got.Some? && (Has(kinds, r, Feature) || Has(kinds, r, Task)) && got.value * BugLabels != {} {
        problems := problems + [Misclassified(r.path, got.value * BugLabels)];
      }
    }
  }

  /** The ids the carrier's own ledger still owes; None when no record bears its name. */
  method LedgerFor(records: seq<Record>, ref: string) returns (owing: Option<seq<string>>)
    ensures owing.None? <==> forall r :: r in records ==> RefOf(r) != ref
    ensures owing.Some? ==> exists k :: FirstNamed(records, ref, k) && owing.value == OpenIds(records[k].criteria)
  {
    hide RefOf;
    for n := 0 to |records|
      invariant forall k :: 0 <= k < n ==> RefOf(records[k]) != ref
    {
      if RefOf(records[n]) == ref {
        var cs := records[n].criteria;
        var ids: seq<string> := [];
        for m := 0 to |cs|
          invariant ids == OpenIds(cs[..m])
        {
          assert cs[..m + 1][..m] == cs[..m];
          if Open(cs[m].state) {
            ids := ids + [cs[m].id];
          }
        }
        assert cs[..|cs|] == cs;
        assert FirstNamed(records, ref, n);
        return Some(ids);
      }
    }
    return None;
  }

  lemma FirstNamedUnique(records: seq<Record>, ref: string, j: int, k: int)
    requires FirstNamed(records, ref, j) && FirstNamed(records, ref, k)
    ensures j == k
  {
  }

  method ResolveOne(t: Tracker, records: seq<Record>, ref: string) returns (problem: Option<Problem>)
    ensures forall p :: problem == Some(p) <==> TargetProblem(t, records, ref, p)
  {
    hide RefOf, OpenIds;
    if ref !in t.states {
      return Some(MissingTarget(ref));
    }
    if t.states[ref] != "closed" {
      return None;
    }
    var owing := LedgerFor(records, ref);
    if owing.None? {
      return Some(ClosedUnledgered(ref));
    }
    ghost var k :| FirstNamed(records, ref, k) && owing.value == OpenIds(records[k].criteria);
    forall j | FirstNamed(records, ref, j) ensures j == k {
      FirstNamedUnique(records, ref, j, k);
    }
    problem := if owing.value != [] then Some(ClosedOwing(ref, owing.value)) else None;
  }

  method ResolveHandoffs(t: Tracker, records: seq<Record>, refs: set<string>) returns (problems: seq<Problem>)
    ensures forall p :: p in problems <==> exists ref :: ref in refs && TargetProblem(t, records, ref, p)
  {
    hide TargetProblem;
    problems := [];
    var names := Elements(refs);
    SortHolds(names);
    names := Sort(names);
    for n := 0 to |names|
      invariant forall p :: p in problems <==> exists k :: 0 <= k < n && TargetProblem(t, records, names[k], p)
    {
      var found := ResolveOne(t, records, names[n]);
      if found.Some? {
        problems := problems + [found.value];
      }
    }
  }

  /** `ref` was noted as belonging to another release. */
  predicate Noted(deferred: map<string, set<string>>, ms: string, ref: string) {
    ms in deferred && ref in deferred[ms]
  }

  function Note(deferred: map<string, set<string>>, ms: string, ref: string): (r: map<string, set<string>>)
    ensures forall m, x :: Noted(r, m, x) <==> Noted(deferred, m, x) || (m == ms && x == ref)
  {
    deferred[ms := (if ms in deferred then deferred[ms] else {}) + {ref}]
  }

  predicate Defers(t: Tracker, release: string, i: Item, ms: string, ref: string) {
    MilestoneOf(t, i.record) == Some(ms) && ms != release && RefOf(i.record) == ref
  }

  /** Split a bucket by milestone, adding to what an earlier bucket deferred or found unclaimed. */
  method Sift(t: Tracker, release: string, items: seq<Item>,
              deferred0: map<string, set<string>>, unclaimed0: set<(string, string)>)
    returns (kept: seq<Item>, deferred: map<string, set<string>>, unclaimed: set<(string, string)>)
    ensures kept == InScope(items, t, release)
    ensures forall ms, ref :: Noted(deferred, ms, ref) <==>
              Noted(deferred0, ms, ref) || exists k :: 0 <= k < |items| && Defers(t, release, items[k], ms, ref)
    ensures forall repo, issue :: (repo, issue) in unclaimed <==>
              (repo, issue) in unclaimed0 || ScopeProblem(t, items, |items|, Unmilestoned(repo, issue))
  {
    hide MilestoneOf, RefOf, Noted, Note;
    kept, deferred, unclaimed := [], deferred0, unclaimed0;
    for n := 0 to |items|
      invariant kept == InScope(items[..n], t, release)
      invariant forall ms, ref :: Noted(deferred, ms, ref) <==>
                  Noted(deferred0, ms, ref) || exists k :: 0 <= k < n && Defers(t, release, items[k], ms, ref)
      invariant forall repo, issue :: (repo, issue) in unclaimed <==>
                  (repo, issue) in unclaimed0 || ScopeProblem(t, items, n, Unmilestoned(repo, issue))
    {
      var i := items[n];
      assert items[..n + 1] == items[..n] + [i];
      assert items[..n + 1][..n] == items[..n];
      match MilestoneOf(t, i.record)
      case None =>
        unclaimed := unclaimed + {(i.record.repo, i.record.issue)};
      case Some(ms) =>
        if ms != release {
          deferred := Note(deferred, ms, RefOf(i.record));
        } else {
          kept := kept + [i];
        }
    }
    assert items[..|items|] == items;
  }

  /** One complaint for each issue no release claims. */
  method Complain(unclaimed: set<(string, string)>) returns (problems: seq<Problem>)
    ensures forall p :: p in problems <==> p.Unmilestoned? && (p.repo, p.issue) in unclaimed
  {
    var pairs := Elements(unclaimed);
    problems := [];
    for n := 0 to |pairs|
      invariant forall p :: p in problems <==> p.Unmilestoned? && (p.repo, p.issue) in pairs[..n]
    {
      problems := problems + [Unmilestoned(pairs[n].0, pairs[n].1)];
    }
  }

  // ---- the gate as a whole ----

  ghost predicate NoneOwed(records: seq<Record>) {
    forall r :: r in records ==> r.criteria == []
  }

  ghost predicate SomeDefect(records: seq<Record>) {
    exists r :: r in records && Has(KindsOf(records, |records|), r, Defect)
  }

  /** Some file or some kind could not be used. */
  ghost predicate Unusable(files: seq<LedgerFile>) {
    var rs := RecordsOf(files);
    (exists f :: f in files && !f.clean) || exists r :: r in rs && Classify(r.kind).None?
  }

  /** Why the gate judges nothing, if it does not. */
  ghost function RefusalOf(release: Option<string>, files: Option<seq<LedgerFile>>, mode: Mode): Option<Reason> {
    if release.None? then Some(NoRelease)
    else if files.None? then Some(NoLedger)
    else if files.value == [] then Some(NoFiles)
    else if NoneOwed(RecordsOf(files.value)) then Some(NoCriteria)
    else if !SomeDefect(RecordsOf(files.value)) && !Unusable(files.value) then Some(NothingInScope)
    else if mode.Unreachable? then Some(TrackerDown)
    else None
  }

  ghost predicate TrackerProblem(t: Tracker, records: seq<Record>, kinds: map<string, Option<Kind>>, p: Problem) {
    var n := |records|;
    LabelProblem(t, records, kinds, n, p) ||
    (exists ref :: WellFormed(ref) && HandsTo(records, kinds, n, ref) && TargetProblem(t, records, ref, p)) ||
    ScopeProblem(t, Owed(true, records, kinds, n), |Owed(true, records, kinds, n)|, p) ||
    ScopeProblem(t, Owed(false, records, kinds, n), |Owed(false, records, kinds, n)|, p)
  }

  ghost predicate IsProblem(files: seq<LedgerFile>, mode: Mode, p: Problem) {
    var rs := RecordsOf(files);
    var kinds := KindsOf(rs, |rs|);
    FileProblem(files, p) || KindProblem(rs, |rs|, p) || HandoffProblem(rs, kinds, |rs|, p) ||
    (mode.Live? && TrackerProblem(mode.tracker, rs, kinds, p))
  }

  /** The whole of a judgement: every problem, every blocking item in order, every deferral. */
  ghost predicate Judgement(release: string, files: seq<LedgerFile>, mode: Mode, o: Outcome)
    requires o.Judged?
  {
    var rs := RecordsOf(files);
    var kinds := KindsOf(rs, |rs|);
    var core, elsewhere := Owed(true, rs, kinds, |rs|), Owed(false, rs, kinds, |rs|);
    (forall p :: p in o.problems <==> IsProblem(files, mode, p)) &&
    match mode
    case Live(t) =>
      o.outstanding == InScope(core, t, release) && o.undecomposed == InScope(elsewhere, t, release) &&
      forall ms, ref :: Noted(o.deferred, ms, ref) <==>
        (exists k :: 0 <= k < |core| && Defers(t, release, core[k], ms, ref)) ||
        (exists k :: 0 <= k < |elsewhere| && Defers(t, release, elsewhere[k], ms, ref))
    case _ =>
      o.outstanding == core && o.undecomposed == elsewhere && o.deferred == map[]
  }

  /** The number of paths classified `defect`. */
  function Defects(kinds: map<string, Option<Kind>>): nat {
    |set p | p in kinds && kinds[p] == Some(Defect)|
  }

  lemma DefectsCounted(records: seq<Record>)
    ensures Defects(KindsOf(records, |records|)) == 0 <==> !SomeDefect(records)
  {
    hide KindsOf, Classify;
    var kinds := KindsOf(records, |records|);
    KindsFromRecords(records, |records|);
    assert records[..|records|] == records;
    var s := set p | p in kinds && kinds[p] == Some(Defect);
    if r :| r in records && Has(kinds, r, Defect) {
      assert r.path in s;
    }
    if s != {} {
      var p :| p in s;
      var r :| r in records && r.path == p;
      assert Has(kinds, r, Defect);
    }
  }

  lemma UnusableShows(files: seq<LedgerFile>, a: seq<Problem>, b: seq<Problem>)
    requires forall p :: p in a <==> FileProblem(files, p)
    requires forall p :: p in b <==> KindProblem(RecordsOf(files), |RecordsOf(files)|, p)
    ensures a + b == [] <==> !Unusable(files)
  {
    hide Classify, RecordsOf;
    if a != [] {
      assert a[0] in a;
    }
    if b != [] {
      assert b[0] in b;
    }
    forall f | f in files && !f.clean ensures a != [] {
      assert Unparsed(f.path) in a;
    }
    var rs := RecordsOf(files);
    forall k | 0 <= k < |rs| && Classify(rs[k].kind).None? ensures b != [] {
      var p := if Strip(rs[k].kind) == "" then NoKind(rs[k].path) else UnknownKind(rs[k].path, Strip(rs[k].kind));
      assert BadKindOf(rs[k], p);
      assert p in b;
    }
  }

  method Corroborate(t: Tracker, release: string, records: seq<Record>, kinds: map<string, Option<Kind>>,
                     core: seq<Item>, elsewhere: seq<Item>, refs: set<string>)
    returns (problems: seq<Problem>, keptCore: seq<Item>, keptElsewhere: seq<Item>, deferred: map<string, set<string>>)
    requires core == Owed(true, records, kinds, |records|) && elsewhere == Owed(false, records, kinds, |records|)
    requires forall ref :: ref in refs <==> WellFormed(ref) && HandsTo(records, kinds, |records|, ref)
    ensures forall p :: p in problems <==> TrackerProblem(t, records, kinds, p)
    ensures keptCore == InScope(core, t, release) && keptElsewhere == InScope(elsewhere, t, release)
    ensures forall ms, ref :: Noted(deferred, ms, ref) <==>
              (exists k :: 0 <= k < |core| && Defers(t, release, core[k], ms, ref)) ||
              (exists k :: 0 <= k < |elsewhere| && Defers(t, release, elsewhere[k], ms, ref))
  {
    hide Defers, TargetProblem, LabelProblem, HandsTo, WellFormed, Owed, InScope;
    var labels := CrossCheck(t, records, kinds);
    var targets := ResolveHandoffs(t, records, refs);
    var unclaimed: set<(string, string)>;
    keptCore, deferred, unclaimed := Sift(t, release, core, map[], {});
    keptElsewhere, deferred, unclaimed := Sift(t, release, elsewhere, deferred, unclaimed);
    var scope := Complain(unclaimed);
    problems := labels + targets + scope;
  }

  /** `o` is the one answer the gate gives. */
  ghost predicate Decided(release: Option<string>, files: Option<seq<LedgerFile>>, mode: Mode, o: Outcome) {
    match RefusalOf(release, files, mode)
    case Some(reason) => o == Refused(reason)
    case None => o.Judged? && Judgement(release.value, files.value, mode, o)
  }

  method Run(release: Option<string>, files: Option<seq<LedgerFile>>, mode: Mode) returns (o: Outcome)
    ensures Decided(release, files, mode, o)
  {
    hide FileProblem, KindProblem, HandoffProblem, TrackerProblem, HandsTo, WellFormed, Defers, Unusable, SomeDefect,
      NoneOwed, KindsOf, RecordsOf, Defects, Owed, InScope;
    if release.None? {
      return Refused(NoRelease);
    }
    if files.None? {
      return Refused(NoLedger);
    }
    if files.value == [] {
      return Refused(NoFiles);
    }
    var records, unread := ReadFiles(files.value);
    var count := CountCriteria(records);
    CountedNone(records, count);
    if count == 0 {
      return Refused(NoCriteria);
    }
    var kinds, unkind := ClassifyAll(records);
    DefectsCounted(records);
    UnusableShows(files.value, unread, unkind);
    var problems := unread + unkind;
    if Defects(kinds) == 0 && problems == [] {
      return Refused(NothingInScope);
    }
    var core, elsewhere, refs, malformed := BlockingSet(records, kinds);
    problems := problems + malformed;
    match mode
    case Offline =>
      o := Judged(problems, core, elsewhere, map[]);
    case Unreachable =>
      o := Refused(TrackerDown);
    case Live(t) =>
      var more, keptCore, keptElsewhere, deferred :=
          Corroborate(t, release.value, records, kinds, core, elsewhere, refs);
      o := Judged(problems + more, keptCore, keptElsewhere, deferred);
  }

  lemma CountedNone(records: seq<Record>, count: nat)
    requires count == 0 <==> forall r :: r in records ==> r.criteria == []
    ensures count == 0 <==> NoneOwed(records)
  {
  }
}
