/** What an exit code of zero from the release gate means
    (scripts/check-release-readiness.py), record by record and criterion by criterion. */
module ReleaseProof {
  import opened Common
  import opened ReleaseGate

  /** What a tree must show before any tracker is asked. */
  ghost predicate Gradable(files: seq<LedgerFile>) {
    var rs := RecordsOf(files);
    (forall f :: f in files ==> f.clean) &&
    (forall r :: r in rs ==> Classify(r.kind).Some?) &&
    !NoneOwed(rs) && SomeDefect(rs)
  }

  ghost predicate DefectCriterion(records: seq<Record>, r: Record, c: Criterion) {
    r in records && Has(KindsOf(records, |records|), r, Defect) && c in r.criteria
  }

  ghost predicate HandoffsSpelled(records: seq<Record>) {
    forall r, c :: DefectCriterion(records, r, c) && HandoffOf(c) != "" ==> WellFormed(HandoffOf(c))
  }

  /** The target exists, and if it is closed the first record of that name owes nothing. */
  ghost predicate Carried(t: Tracker, records: seq<Record>, ref: string) {
    ref in t.states &&
    (t.states[ref] == "closed" ==>
       exists k :: FirstNamed(records, ref, k) && forall c :: c in records[k].criteria ==> !Open(c.state))
  }

  ghost predicate HandoffsCarried(t: Tracker, records: seq<Record>) {
    forall r, c :: DefectCriterion(records, r, c) && HandoffOf(c) != "" ==> Carried(t, records, HandoffOf(c))
  }

  predicate OwesAnywhere(c: Criterion) {
    OwedByCore(c) || OwedElsewhere(c)
  }

  predicate ElsewhereMilestoned(t: Tracker, release: string, r: Record) {
    MilestoneOf(t, r).Some? && MilestoneOf(t, r).value != release
  }

  /** Everything a defect still owes belongs to another release. */
  ghost predicate OwedLater(t: Tracker, release: string, records: seq<Record>) {
    forall r, c :: DefectCriterion(records, r, c) && OwesAnywhere(c) ==> ElsewhereMilestoned(t, release, r)
  }

  ghost predicate NothingOwed(records: seq<Record>) {
    forall r, c :: DefectCriterion(records, r, c) ==> !OwesAnywhere(c)
  }

  ghost predicate LabelsAgree(t: Tracker, records: seq<Record>) {
    forall r :: r in records ==> !Hides(t, KindsOf(records, |records|), r)
  }

  /** What a live pass certifies. */
  ghost predicate ReadyLive(t: Tracker, release: string, files: seq<LedgerFile>) {
    var rs := RecordsOf(files);
    Gradable(files) && HandoffsSpelled(rs) && HandoffsCarried(t, rs) && LabelsAgree(t, rs) && OwedLater(t, release, rs)
  }

  /** What an offline pass certifies. */
  ghost predicate ReadyOffline(files: seq<LedgerFile>) {
    var rs := RecordsOf(files);
    Gradable(files) && HandoffsSpelled(rs) && NothingOwed(rs)
  }

  // ---- what the lists hold ----

  lemma {:induction false} RecordsRead(files: seq<LedgerFile>, r: Record)
    ensures r in RecordsOf(files) <==> exists f :: f in files && f.record == Some(r)
  {
    if files != [] {
      RecordsRead(files[..|files| - 1], r);
      assert files == files[..|files| - 1] + [files[|files| - 1]];
    }
  }

  lemma {:induction false} OwedInItem(core: bool, r: Record, n: nat, i: Item)
    requires n <= |r.criteria|
    ensures i in OwedIn(core, r, n) <==> i.record == r && i.criterion in r.criteria[..n] && Owes(core, i.criterion)
  {
    hide Owes;
    if n > 0 {
      OwedInItem(core, r, n - 1, i);
      assert r.criteria[..n] == r.criteria[..n - 1] + [r.criteria[n - 1]];
    }
  }

  lemma {:induction false} OwedItem(core: bool, records: seq<Record>, kinds: map<string, Option<Kind>>, n: nat, i: Item)
    requires n <= |records|
    ensures i in Owed(core, records, kinds, n) <==>
              i.record in records[..n] && Has(kinds, i.record, Defect) &&
              i.criterion in i.record.criteria && Owes(core, i.criterion)
  {
    hide Owes, Has, OwedIn;
    if n > 0 {
      var r := records[n - 1];
      OwedItem(core, records, kinds, n - 1, i);
      OwedInItem(core, r, |r.criteria|, i);
      assert records[..n] == records[..n - 1] + [r];
      assert r.criteria[..|r.criteria|] == r.criteria;
    }
  }

  lemma {:induction false} InScopeItem(items: seq<Item>, t: Tracker, release: string, i: Item)
    ensures i in InScope(items, t, release) <==> i in items && MilestoneOf(t, i.record) == Some(release)
  {
    hide MilestoneOf;
    if items != [] {
      InScopeItem(items[..|items| - 1], t, release, i);
      assert items == items[..|items| - 1] + [items[|items| - 1]];
    }
  }

  // ---- each kind of problem, absent ----

  ghost predicate FilesSilent(files: seq<LedgerFile>) {
    forall p :: !FileProblem(files, p)
  }

  ghost predicate KindsSilent(records: seq<Record>) {
    forall p :: !KindProblem(records, |records|, p)
  }

  ghost predicate HandoffsSilent(records: seq<Record>) {
    forall p :: !HandoffProblem(records, KindsOf(records, |records|), |records|, p)
  }

  ghost predicate LabelsSilent(t: Tracker, records: seq<Record>) {
    forall p :: !LabelProblem(t, records, KindsOf(records, |records|), |records|, p)
  }

  /** The target of some well-formed handoff of a defect is at fault. */
  ghost predicate Astray(t: Tracker, records: seq<Record>, ref: string, p: Problem) {
    WellFormed(ref) && HandsTo(records, KindsOf(records, |records|), |records|, ref) &&
        TargetProblem(t, records, ref, p)
  }

  ghost predicate TargetsSilent(t: Tracker, records: seq<Record>) {
    forall ref, p :: !Astray(t, records, ref, p)
  }

  ghost predicate ScopeSilent(t: Tracker, core: bool, records: seq<Record>) {
    var items := Owed(core, records, KindsOf(records, |records|), |records|);
    forall p :: !ScopeProblem(t, items, |items|, p)
  }

  ghost predicate TrackerSilent(t: Tracker, records: seq<Record>) {
    forall p :: !TrackerProblem(t, records, KindsOf(records, |records|), p)
  }

  lemma FilesClean(files: seq<LedgerFile>)
    ensures FilesSilent(files) <==> forall f :: f in files ==> f.clean
  {
    forall f | f in files && !f.clean ensures !FilesSilent(files) {
      assert FileProblem(files, Unparsed(f.path));
    }
  }

  lemma KindsKnown(records: seq<Record>)
    ensures KindsSilent(records) <==> forall r :: r in records ==> Classify(r.kind).Some?
  {
    hide Classify, Strip;
    forall k | 0 <= k < |records| && Classify(records[k].kind).None? ensures !KindsSilent(records) {
      var r := records[k];
      var p := if Strip(r.kind) == "" then NoKind(r.path) else UnknownKind(r.path, Strip(r.kind));
      assert BadKindOf(r, p);
      assert KindProblem(records, |records|, p);
    }
  }

  lemma SpelledIff(records: seq<Record>)
    ensures HandoffsSilent(records) <==> HandoffsSpelled(records)
  {
    hide WellFormed, HandoffOf, KindsOf, Has;
    var kinds := KindsOf(records, |records|);
    assert records[..|records|] == records;
    forall r, c | DefectCriterion(records, r, c) && HandoffOf(c) != "" && !WellFormed(HandoffOf(c))
      ensures !HandoffsSilent(records)
    {
      var p := BadHandoff(r.path, c.id, HandoffOf(c));
      assert BadHandoffIn(r, c, p);
      assert HandoffProblem(records, kinds, |records|, p);
    }
    forall p | HandoffProblem(records, kinds, |records|, p) ensures !HandoffsSpelled(records) {
      var r, c :| r in records && Has(kinds, r, Defect) && c in r.criteria && BadHandoffIn(r, c, p);
      assert DefectCriterion(records, r, c);
    }
  }

  lemma LabelsIff(t: Tracker, records: seq<Record>)
    ensures LabelsSilent(t, records) <==> LabelsAgree(t, records)
  {
    hide KindsOf, Hides;
    var kinds := KindsOf(records, |records|);
    forall k | 0 <= k < |records| && Hides(t, kinds, records[k]) ensures !LabelsSilent(t, records) {
      HidesComplaint(t, kinds, records[k]);
      var p :| MislabelOf(t, kinds, records[k], p);
      assert LabelProblem(t, records, kinds, |records|, p);
    }
  }

  lemma HidesComplaint(t: Tracker, kinds: map<string, Option<Kind>>, r: Record)
    requires Hides(t, kinds, r)
    ensures exists p :: MislabelOf(t, kinds, r, p)
  {
    assert MislabelOf(t, kinds, r, Misclassified(r.path, LabelsOf(t, r).value * BugLabels));
  }

  lemma {:induction false} NamedHasFirst(records: seq<Record>, ref: string, n: nat) returns (k: int)
    requires n < |records| && RefOf(records[n]) == ref
    ensures FirstNamed(records, ref, k)
    decreases n
  {
    hide RefOf;
    k := n;
    if j :| 0 <= j < n && RefOf(records[j]) == ref {
      k := NamedHasFirst(records, ref, j);
    }
  }

  lemma CarriedIff(t: Tracker, records: seq<Record>, ref: string)
    ensures (forall p :: !TargetProblem(t, records, ref, p)) <==> Carried(t, records, ref)
  {
    hide RefOf, OpenIds;
    if ref !in t.states {
      assert TargetProblem(t, records, ref, MissingTarget(ref));
    } else if t.states[ref] == "closed" {
      if n :| 0 <= n < |records| && RefOf(records[n]) == ref {
        var k := NamedHasFirst(records, ref, n);
        forall j | FirstNamed(records, ref, j) ensures j == k {
          FirstNamedUnique(records, ref, j, k);
        }
        var ids := OpenIds(records[k].criteria);
        if ids != [] {
          assert TargetProblem(t, records, ref, ClosedOwing(ref, ids));
        }
      } else {
        assert TargetProblem(t, records, ref, ClosedUnledgered(ref));
      }
    }
  }

  lemma TargetsIff(t: Tracker, records: seq<Record>)
    requires HandoffsSpelled(records)
    ensures TargetsSilent(t, records) <==> HandoffsCarried(t, records)
  {
    hide WellFormed, HandoffOf, KindsOf, TargetProblem, Carried, Has;
    var kinds := KindsOf(records, |records|);
    assert records[..|records|] == records;
    if TargetsSilent(t, records) {
      forall r, c | DefectCriterion(records, r, c) && HandoffOf(c) != "" ensures Carried(t, records, HandoffOf(c)) {
        var ref := HandoffOf(c);
        assert HandsTo(records, kinds, |records|, ref);
        forall p ensures !TargetProblem(t, records, ref, p) {
          assert !Astray(t, records, ref, p);
        }
        CarriedIff(t, records, ref);
      }
    }
    forall ref, p | Astray(t, records, ref, p) ensures !HandoffsCarried(t, records) {
      CarriedIff(t, records, ref);
      var r, c :| r in records && Has(kinds, r, Defect) && c in r.criteria && HandoffOf(c) == ref;
      assert DefectCriterion(records, r, c);
    }
  }

  // ---- what is owed ----

  lemma OwedIff(records: seq<Record>, i: Item)
    ensures var kinds := KindsOf(records, |records|);
            i in Owed(true, records, kinds, |records|) || i in Owed(false, records, kinds, |records|) <==>
            DefectCriterion(records, i.record, i.criterion) && OwesAnywhere(i.criterion)
  {
    hide KindsOf, Has, OwedByCore, OwedElsewhere, Owed;
    assert records[..|records|] == records;
    OwedItem(true, records, KindsOf(records, |records|), |records|, i);
    OwedItem(false, records, KindsOf(records, |records|), |records|, i);
  }

  /** Nothing is kept under this release or left without a milestone. */
  lemma BucketClear(t: Tracker, release: string, core: bool, records: seq<Record>)
    ensures var items := Owed(core, records, KindsOf(records, |records|), |records|);
            InScope(items, t, release) == [] && ScopeSilent(t, core, records) <==>
            forall i :: i in items ==> ElsewhereMilestoned(t, release, i.record)
  {
    hide MilestoneOf, InScope, Owed, KindsOf;
    var items := Owed(core, records, KindsOf(records, |records|), |records|);
    var kept := InScope(items, t, release);
    if kept != [] {
      InScopeItem(items, t, release, kept[0]);
    }
    forall i | i in items && MilestoneOf(t, i.record) == Some(release) ensures kept != [] {
      InScopeItem(items, t, release, i);
    }
    forall k | 0 <= k < |items| && MilestoneOf(t, items[k].record).None? ensures !ScopeSilent(t, core, records) {
      var p := Unmilestoned(items[k].record.repo, items[k].record.issue);
      assert Orphaned(t, items[k], p);
      assert ScopeProblem(t, items, |items|, p);
    }
  }

  lemma OwedLaterIff(t: Tracker, release: string, records: seq<Record>)
    ensures var kinds := KindsOf(records, |records|);
            OwedLater(t, release, records) <==>
            (forall i :: i in Owed(true, records, kinds, |records|) ==> ElsewhereMilestoned(t, release, i.record)) &&
            (forall i :: i in Owed(false, records, kinds, |records|) ==> ElsewhereMilestoned(t, release, i.record))
  {
    hide KindsOf, ElsewhereMilestoned, OwesAnywhere, DefectCriterion, Owed;
    var kinds := KindsOf(records, |records|);
    var core, elsewhere := Owed(true, records, kinds, |records|), Owed(false, records, kinds, |records|);
    forall i | i in core || i in elsewhere
      ensures DefectCriterion(records, i.record, i.criterion) && OwesAnywhere(i.criterion)
    {
      OwedIff(records, i);
    }
    forall r, c | DefectCriterion(records, r, c) && OwesAnywhere(c)
      ensures Item(r, c) in core || Item(r, c) in elsewhere
    {
      OwedIff(records, Item(r, c));
    }
  }

  lemma NothingOwedIff(records: seq<Record>)
    ensures var kinds := KindsOf(records, |records|);
            NothingOwed(records) <==>
            Owed(true, records, kinds, |records|) == [] && Owed(false, records, kinds, |records|) == []
  {
    hide KindsOf, OwesAnywhere, DefectCriterion, Owed;
    var kinds := KindsOf(records, |records|);
    var core, elsewhere := Owed(true, records, kinds, |records|), Owed(false, records, kinds, |records|);
    forall r, c | DefectCriterion(records, r, c) && OwesAnywhere(c) ensures core != [] || elsewhere != [] {
      OwedIff(records, Item(r, c));
    }
    if core != [] {
      OwedIff(records, core[0]);
    }
    if elsewhere != [] {
      OwedIff(records, elsewhere[0]);
    }
  }

  // ---- the verdict ----

  lemma TrackerSilentIff(t: Tracker, records: seq<Record>)
    ensures TrackerSilent(t, records) <==>
              LabelsSilent(t, records) && TargetsSilent(t, records) &&
              ScopeSilent(t, true, records) && ScopeSilent(t, false, records)
  {
    hide KindsOf, Owed, LabelProblem, ScopeProblem, TargetProblem, HandsTo, WellFormed;
    var kinds := KindsOf(records, |records|);
    if TrackerSilent(t, records) {
      forall p ensures !LabelProblem(t, records, kinds, |records|, p) {
        assert !TrackerProblem(t, records, kinds, p);
      }
      forall ref, p ensures !Astray(t, records, ref, p) {
        assert !TrackerProblem(t, records, kinds, p);
      }
      forall core, p
        ensures !ScopeProblem(t, Owed(core, records, kinds, |records|), |Owed(core, records, kinds, |records|)|, p)
      {
        assert !TrackerProblem(t, records, kinds, p);
      }
    } else {
      var p :| TrackerProblem(t, records, kinds, p);
      if !LabelProblem(t, records, kinds, |records|, p) && ScopeSilent(t, true, records) &&
          ScopeSilent(t, false, records) {
        assert !ScopeProblem(t, Owed(true, records, kinds, |records|), |Owed(true, records, kinds, |records|)|, p);
        assert !ScopeProblem(t, Owed(false, records, kinds, |records|), |Owed(false, records, kinds, |records|)|, p);
        var ref :| WellFormed(ref) && HandsTo(records, kinds, |records|, ref) && TargetProblem(t, records, ref, p);
        assert Astray(t, records, ref, p);
      }
    }
  }

  lemma NoProblems(files: seq<LedgerFile>, mode: Mode, ps: seq<Problem>)
    requires forall p :: p in ps <==> IsProblem(files, mode, p)
    ensures var rs := RecordsOf(files);
            ps == [] <==> FilesSilent(files) && KindsSilent(rs) && HandoffsSilent(rs) &&
                          (mode.Live? ==> TrackerSilent(mode.tracker, rs))
  {
    hide KindsOf, RecordsOf, FileProblem, KindProblem, HandoffProblem, TrackerProblem;
    var rs := RecordsOf(files);
    var kinds := KindsOf(rs, |rs|);
    if ps == [] {
      assert forall p :: !IsProblem(files, mode, p) ==> p !in ps;
      forall p ensures !FileProblem(files, p) && !KindProblem(rs, |rs|, p) && !HandoffProblem(rs, kinds, |rs|, p) {
        assert !IsProblem(files, mode, p);
      }
      if mode.Live? {
        forall p ensures !TrackerProblem(mode.tracker, rs, kinds, p) {
          assert !IsProblem(files, mode, p);
        }
      }
    } else {
      var p := ps[0];
      assert IsProblem(files, mode, p);
      assert FileProblem(files, p) || KindProblem(rs, |rs|, p) || HandoffProblem(rs, kinds, |rs|, p) ||
             (mode.Live? && TrackerProblem(mode.tracker, rs, kinds, p));
    }
  }

  /** The tree is gradable just when the gate neither refuses to judge nor finds a file or kind at fault. */
  lemma GradableIff(release: string, files: seq<LedgerFile>, mode: Mode)
    requires !mode.Unreachable?
    ensures Gradable(files) <==> RefusalOf(Some(release), Some(files), mode).None? &&
                                 (forall f :: f in files ==> f.clean) &&
                                 (forall r :: r in RecordsOf(files) ==> Classify(r.kind).Some?)
  {
    hide Classify, SomeDefect;
  }

  /** A live run exits zero exactly when the tree is gradable, every handoff of a defect is spelled
      out and carried, no label contradicts a kind, and what is owed belongs to another release. */
  lemma LivePassIff(release: string, files: seq<LedgerFile>, t: Tracker, o: Outcome)
    requires Decided(Some(release), Some(files), Live(t), o)
    ensures ExitCode(o) == 0 <==> ReadyLive(t, release, files)
  {
    var rs := RecordsOf(files);
    GradableIff(release, files, Live(t));
    if o.Judged? {
      NoProblems(files, Live(t), o.problems);
      TrackerSilentIff(t, rs);
      FilesClean(files);
      KindsKnown(rs);
      SpelledIff(rs);
      LabelsIff(t, rs);
      if HandoffsSpelled(rs) {
        TargetsIff(t, rs);
      }
      BucketClear(t, release, true, rs);
      BucketClear(t, release, false, rs);
      OwedLaterIff(t, release, rs);
    }
    hide RefusalOf, RecordsOf, KindsOf, Owed, InScope, HandoffsSpelled, HandoffsCarried, LabelsAgree, OwedLater,
      ElsewhereMilestoned, TrackerProblem, Noted, Defers, Classify, Gradable, IsProblem, FilesSilent, KindsSilent,
      HandoffsSilent, LabelsSilent, TargetsSilent, ScopeSilent;
  }

  /** An offline run exits zero exactly when the tree is gradable, every handoff is spelled out
      and no defect owes anything: it never lets a milestone excuse work. */
  lemma OfflinePassIff(release: string, files: seq<LedgerFile>, o: Outcome)
    requires Decided(Some(release), Some(files), Offline, o)
    ensures ExitCode(o) == 0 <==> ReadyOffline(files)
  {
    var rs := RecordsOf(files);
    GradableIff(release, files, Offline);
    if o.Judged? {
      NoProblems(files, Offline, o.problems);
      FilesClean(files);
      KindsKnown(rs);
      SpelledIff(rs);
      NothingOwedIff(rs);
    }
    hide RefusalOf, RecordsOf, KindsOf, Owed, HandoffsSpelled, NothingOwed, Classify, Gradable, IsProblem, FilesSilent,
      KindsSilent, HandoffsSilent;
  }

  // ---- scope ----

  lemma {:induction false} DigitsOnly(s: string)
    requires ParseDigits(s).Some?
    ensures s != "" && forall k :: 0 <= k < |s| ==> s[k] != '#'
  {
    if |s| > 1 {
      DigitsOnly(s[..|s| - 1]);
      assert forall k :: 0 <= k < |s| - 1 ==> s[k] == s[..|s| - 1][k];
    }
  }

  /** Numbered issues are told apart by the name handoffs and deferrals use. */
  lemma RefNamesOne(a: Record, b: Record)
    requires ParseDigits(a.issue).Some? && ParseDigits(b.issue).Some? && RefOf(a) == RefOf(b)
    ensures a.repo == b.repo && a.issue == b.issue
  {
    DigitsOnly(a.issue);
    DigitsOnly(b.issue);
    var s := RefOf(a);
    var i, j := |a.repo|, |b.repo|;
    assert s[i] == '#' && s[j] == '#';
    assert forall k :: i < k < |s| ==> s[k] == a.issue[k - i - 1];
    assert forall k :: j < k < |s| ==> s[k] == b.issue[k - j - 1];
    assert i == j;
    assert s[..i] == a.repo && s[..j] == b.repo && s[i + 1..] == a.issue && s[j + 1..] == b.issue;
  }

  // Where an owed item went: kept under this release, deferred to another, or claimed by none.

  ghost predicate Kept(o: Outcome, i: Item)
    requires o.Judged?
  {
    i in o.outstanding || i in o.undecomposed
  }

  ghost predicate Deferred(o: Outcome, i: Item)
    requires o.Judged?
  {
    exists ms :: Noted(o.deferred, ms, RefOf(i.record))
  }

  ghost predicate Unclaimed(o: Outcome, i: Item)
    requires o.Judged?
  {
    Unmilestoned(i.record.repo, i.record.issue) in o.problems
  }

  lemma KeptIff(release: string, files: seq<LedgerFile>, t: Tracker, o: Outcome, i: Item)
    requires o.Judged? && Judgement(release, files, Live(t), o)
    requires DefectCriterion(RecordsOf(files), i.record, i.criterion) && OwesAnywhere(i.criterion)
    ensures Kept(o, i) <==> MilestoneOf(t, i.record) == Some(release)
  {
    hide MilestoneOf, InScope, Owed, KindsOf, IsProblem, DefectCriterion, OwesAnywhere, RecordsOf;
    var rs := RecordsOf(files);
    var kinds := KindsOf(rs, |rs|);
    OwedIff(rs, i);
    InScopeItem(Owed(true, rs, kinds, |rs|), t, release, i);
    InScopeItem(Owed(false, rs, kinds, |rs|), t, release, i);
  }

  lemma UnclaimedIff(release: string, files: seq<LedgerFile>, t: Tracker, o: Outcome, i: Item)
    requires o.Judged? && Judgement(release, files, Live(t), o)
    requires DefectCriterion(RecordsOf(files), i.record, i.criterion) && OwesAnywhere(i.criterion)
    ensures Unclaimed(o, i) <==> MilestoneOf(t, i.record).None?
  {
    hide InScope, Owed, KindsOf, DefectCriterion, OwesAnywhere, RecordsOf, WellFormed, HandsTo;
    var rs := RecordsOf(files);
    var kinds := KindsOf(rs, |rs|);
    var core, elsewhere := Owed(true, rs, kinds, |rs|), Owed(false, rs, kinds, |rs|);
    var p := Unmilestoned(i.record.repo, i.record.issue);
    OwedIff(rs, i);
    assert Unclaimed(o, i) <==> ScopeProblem(t, core, |core|, p) || ScopeProblem(t, elsewhere, |elsewhere|, p) by {
      assert p in o.problems <==> IsProblem(files, Live(t), p);
    }
    if MilestoneOf(t, i.record).None? {
      assert Orphaned(t, i, p);
      if i in core {
        var k :| 0 <= k < |core| && core[k] == i;
        assert Orphaned(t, core[k], p);
      } else {
        var k :| 0 <= k < |elsewhere| && elsewhere[k] == i;
        assert Orphaned(t, elsewhere[k], p);
      }
    }
  }

  lemma DeferredIff(release: string, files: seq<LedgerFile>, t: Tracker, o: Outcome, i: Item, ms: string)
    requires o.Judged? && Judgement(release, files, Live(t), o)
    requires DefectCriterion(RecordsOf(files), i.record, i.criterion) && OwesAnywhere(i.criterion)
    requires ParseDigits(i.record.issue).Some?
    ensures Noted(o.deferred, ms, RefOf(i.record)) <==> MilestoneOf(t, i.record) == Some(ms) && ms != release
  {
    hide InScope, Owed, KindsOf, DefectCriterion, OwesAnywhere, RecordsOf, IsProblem, RefOf, Noted;
    var rs := RecordsOf(files);
    var kinds := KindsOf(rs, |rs|);
    var core, elsewhere := Owed(true, rs, kinds, |rs|), Owed(false, rs, kinds, |rs|);
    var ref := RefOf(i.record);
    OwedIff(rs, i);
    forall j: Item | Defers(t, release, j, ms, ref) ensures MilestoneOf(t, i.record) == Some(ms) {
      RefNamesOne(i.record, j.record);
    }
    if MilestoneOf(t, i.record) == Some(ms) && ms != release {
      assert Defers(t, release, i, ms, ref);
      if i in core {
        var k :| 0 <= k < |core| && core[k] == i;
        assert Defers(t, release, core[k], ms, ref);
      } else {
        var k :| 0 <= k < |elsewhere| && elsewhere[k] == i;
        assert Defers(t, release, elsewhere[k], ms, ref);
      }
    }
  }

  /** In a live judgement every owed criterion of a numbered issue went to exactly one place,
      and one of an unnumbered issue is reported as claimed by no release. */
  lemma PlacedOnce(release: string, files: seq<LedgerFile>, t: Tracker, o: Outcome, i: Item)
    requires o.Judged? && Judgement(release, files, Live(t), o)
    requires DefectCriterion(RecordsOf(files), i.record, i.criterion) && OwesAnywhere(i.criterion)
    ensures Kept(o, i) ==> !Unclaimed(o, i)
    ensures ParseDigits(i.record.issue).None? ==> Unclaimed(o, i)
    ensures ParseDigits(i.record.issue).Some? ==> (Deferred(o, i) <==> !Kept(o, i) && !Unclaimed(o, i))
  {
    KeptIff(release, files, t, o, i);
    UnclaimedIff(release, files, t, o, i);
    if ParseDigits(i.record.issue).Some? {
      forall ms ensures Noted(o.deferred, ms, RefOf(i.record)) <==>
          MilestoneOf(t, i.record) == Some(ms) && ms != release {
        DeferredIff(release, files, t, o, i, ms);
      }
    }
    hide Judgement, RecordsOf, DefectCriterion, OwesAnywhere, Kept, Unclaimed, Noted, RefOf;
  }

  // ---- what a pass does not say ----

  /** A pass is compatible with work nobody holds: whatever another lane still owes on a defect may
      name the very issue it stands in as its handoff, as long as the tracker has that issue open. */
  lemma SelfHandoffPasses(release: string, t: Tracker, r: Record, c: Criterion)
    requires Classify(r.kind) == Some(Defect) && r.criteria == [c]
    requires Foreign(c.owner) && HandoffOf(c) == RefOf(r) && WellFormed(RefOf(r))
    requires RefOf(r) in t.states && t.states[RefOf(r)] != "closed"
    ensures ReadyLive(t, release, [LedgerFile(r.path, Some(r), true)])
  {
    hide Classify, HandoffOf, WellFormed, LabelsOf;
    var files := [LedgerFile(r.path, Some(r), true)];
    assert RecordsOf(files) == [r] by {
      assert files[..0] == [];
    }
    assert KindsOf([r], 1) == map[r.path := Some(Defect)] by {
      assert KindsOf([r], 0) == map[];
    }
    EmptyIsMalformed();
    assert r in [r];
    hide KindsOf, RecordsOf;
  }

  // ---- the vocabulary, spelled out ----

  /** A kind counts when it is one of three words with at most space around it. */
  lemma ClassifySays(kind: string)
    ensures Classify(kind) == Some(Defect) <==> Padded(kind, "defect")
    ensures Classify(kind) == Some(Feature) <==> Padded(kind, "feature")
    ensures Classify(kind) == Some(Task) <==> Padded(kind, "task")
  {
    hide Strip, Padded, IsSpace;
    LettersAreNoSpace();
    StripSays(kind, "defect");
    StripSays(kind, "feature");
    StripSays(kind, "task");
  }

  lemma LettersAreNoSpace()
    ensures forall c: char :: 'a' <= c <= 'z' ==> !IsSpace(c)
  {
  }

  /** Core owes what is not met under its own name; elsewhere a criterion is owed that is not met or blocked, belongs
      to one of the four other owners and has a blank handoff. */
  lemma OwesSays(c: Criterion)
    ensures Owes(true, c) <==> c.state == "not-met" && c.owner == "core"
    ensures Owes(false, c) <==>
              (c.state == "not-met" || c.state == "blocked") &&
              (c.owner == "desktop" || c.owner == "flux" || c.owner == "maintainer" || c.owner == "reporter") &&
              Blank(c.handoff)
  {
    hide Strip;
    BlankStrips(c.handoff);
  }

  /** A feature or task contradicts its tracker when the issue its number reads as carries one of five labels. */
  lemma HidesSays(t: Tracker, kinds: map<string, Option<Kind>>, r: Record)
    ensures Hides(t, kinds, r) <==>
              (Has(kinds, r, Feature) || Has(kinds, r, Task)) && r.repo != "" && r.repo in t.labels &&
              exists n :: n in t.labels[r.repo] && Numeral(r.issue, n) && SomeBugLabel(t.labels[r.repo][n])
  {
    hide ParseDigits, Numeral, SomeBugLabel;
    forall n: nat ensures ParseDigits(r.issue) == Some(n) <==> Numeral(r.issue, n) {
      NumeralSays(r.issue, n);
    }
    forall labels: set<string> ensures labels * BugLabels != {} <==> SomeBugLabel(labels) {
      BugLabelsAre(labels);
    }
    hide BugLabels;
  }

  predicate SomeBugLabel(labels: set<string>) {
    "bug" in labels || "defect" in labels || "type:bug" in labels || "kind/bug" in labels || "regression" in labels
  }

  lemma BugLabelsAre(labels: set<string>)
    ensures labels * BugLabels != {} <==> SomeBugLabel(labels)
  {
    if l :| l in labels * BugLabels {
      assert SomeBugLabel(labels);
    }
    if SomeBugLabel(labels) {
      assert "bug" in labels * BugLabels || "defect" in labels * BugLabels || "type:bug" in labels * BugLabels ||
             "kind/bug" in labels * BugLabels || "regression" in labels * BugLabels;
    }
  }

  /** An issue is under the milestone its tracker has for the number it reads as. */
  lemma MilestoneSays(t: Tracker, r: Record, m: string)
    ensures MilestoneOf(t, r) == Some(m) <==>
              m != "" && r.repo != "" && r.repo in t.milestones &&
              exists n :: n in t.milestones[r.repo] && Numeral(r.issue, n) && t.milestones[r.repo][n] == m
  {
    hide ParseDigits, Numeral;
    forall n: nat ensures ParseDigits(r.issue) == Some(n) <==> Numeral(r.issue, n) {
      NumeralSays(r.issue, n);
    }
  }

  predicate NameText(s: string) {
    s != "" && forall c :: c in s ==> Letter(c) || c in DIGITS || c in "_.-"
  }

  predicate NumberText(s: string) {
    s != "" && forall c :: c in s ==> c in DIGITS
  }

  /** A handoff is well-formed when it is an owner, a slash, a repository, a hash and a number. */
  lemma WellFormedSays(ref: string)
    ensures WellFormed(ref) <==>
              exists owner, repo, num :: NameText(owner) && NameText(repo) && NumberText(num) &&
                                         ref == owner + "/" + repo + "#" + num
  {
    if WellFormed(ref) {
      var slash, hash :| 0 <= slash < |ref| && 0 <= hash < |ref| && RefAt(ref, slash, hash);
      RefParts(ref, slash, hash);
    }
    if owner, repo, num :| NameText(owner) && NameText(repo) && NumberText(num) &&
                           ref == owner + "/" + repo + "#" + num {
      PartsRef(owner, repo, num);
    }
  }

  lemma NameChars(s: string)
    ensures NameText(s) <==> s != "" && forall k :: 0 <= k < |s| ==> NameChar(s[k])
    ensures NumberText(s) <==> s != "" && forall k :: 0 <= k < |s| ==> '0' <= s[k] <= '9'
  {
    forall c: char
      ensures NameChar(c) <==> Letter(c) || c in DIGITS || c in "_.-"
      ensures c in DIGITS <==> '0' <= c <= '9'
    {
      LetterIs(c);
      DigitIs(c);
    }
    hide NameChar, Letter, DIGITS;
    assert forall k :: 0 <= k < |s| ==> s[k] in s;
  }

  lemma RefParts(ref: string, slash: nat, hash: nat)
    requires slash < |ref| && hash < |ref| && RefAt(ref, slash, hash)
    ensures NameText(ref[..slash]) && NameText(ref[slash + 1..hash]) && NumberText(ref[hash + 1..])
    ensures ref == ref[..slash] + "/" + ref[slash + 1..hash] + "#" + ref[hash + 1..]
  {
    hide NameChar, NameText, NumberText;
    NameChars(ref[..slash]);
    NameChars(ref[slash + 1..hash]);
    NameChars(ref[hash + 1..]);
  }

  lemma PartsRef(owner: string, repo: string, num: string)
    requires NameText(owner) && NameText(repo) && NumberText(num)
    ensures WellFormed(owner + "/" + repo + "#" + num)
  {
    hide NameChar, NameText, NumberText;
    NameChars(owner);
    NameChars(repo);
    NameChars(num);
    var ref := owner + "/" + repo + "#" + num;
    var slash, hash := |owner|, |owner| + 1 + |repo|;
    assert RefAt(ref, slash, hash);
  }
}
