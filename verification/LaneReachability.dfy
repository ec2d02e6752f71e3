/** Whether lane pushes reach a Windows test leg (scripts/check-windows-attribution.py,
    `check_lane_reachability`), decided by evaluating the jobs' conditions. */
module LaneReachability {
  import opened Common
  import opened StringOrder
  import opened GhaCondition
  import opened GhaProof

  /** A job of the workflow and the tokens of its `if:`. */
  datatype Job = Job(name: string, windows: bool, tests: bool, condition: seq<Token>)

  /** A push, and whether some Windows test leg must admit it. */
  datatype Case = Case(push: string, ctx: Context, want: bool)

  datatype Violation =
    | NothingToReach
    | NotAdmitted(push: string)
    | AdmittedBy(push: string, jobs: seq<string>)
    | Unreadable(job: string)

  const LANE := Context("push", "lane/f13-example", "fix: an ordinary lane commit", None)
  const MARKED := Context("push", "wip/whatever", "chore: poke [ci-windows]", None)
  const UNMARKED := Context("push", "wip/whatever", "chore: poke", None)

  const CASES: seq<Case> := [
    Case("markerless lane push", LANE, true),
    Case("marked branch push", MARKED, true),
    Case("markerless branch push", UNMARKED, false)
  ]

  function TestJobs(jobs: seq<Job>): (r: seq<Job>)
    ensures forall j :: j in r <==> j in jobs && j.windows && j.tests
  {
    if jobs == [] then []
    else (if jobs[0].windows && jobs[0].tests then [jobs[0]] else []) + TestJobs(jobs[1..])
  }

  /** Every test job's condition says something in the case, and some job's says yes just when one must. */
  ghost predicate RoutedAsWanted(jobs: seq<Job>, c: Case) {
    (forall j :: j in jobs ==> exists b :: Means(j.condition, c.ctx, b)) &&
    (c.want <==> exists j :: j in jobs && Means(j.condition, c.ctx, true))
  }

  ghost predicate Admits(jobs: seq<Job>, ctx: Context) {
    exists j :: j in jobs && EvalIf(j.condition, ctx) == Some(true)
  }

  /** The names of the jobs that admit the push, in order. */
  function Admitted(jobs: seq<Job>, ctx: Context): seq<string> {
    if jobs == [] then []
    else
      var j := jobs[|jobs| - 1];
      Admitted(jobs[..|jobs| - 1], ctx) + if EvalIf(j.condition, ctx) == Some(true) then [j.name] else []
  }

  lemma {:induction false} AdmittedSome(jobs: seq<Job>, ctx: Context)
    ensures Admitted(jobs, ctx) != [] <==> Admits(jobs, ctx)
  {
    hide EvalIf;
    if jobs != [] {
      AdmittedSome(jobs[..|jobs| - 1], ctx);
      assert jobs == jobs[..|jobs| - 1] + [jobs[|jobs| - 1]];
    }
  }

  /** The one violation of a case, its undecided conditions aside. */
  ghost predicate Misrouted(jobs: seq<Job>, c: Case, v: Violation) {
    c.want != Admits(jobs, c.ctx) &&
    v == if c.want then NotAdmitted(c.push) else AdmittedBy(c.push, Admitted(jobs, c.ctx))
  }

  ghost predicate Undecided(jobs: seq<Job>, c: Case, name: string) {
    exists j :: j in jobs && j.name == name && EvalIf(j.condition, c.ctx).None?
  }

  /** What the check reports: misrouted cases, and jobs it could not read in some case. */
  ghost predicate IsViolation(jobs: seq<Job>, cases: seq<Case>, v: Violation) {
    if jobs == [] then v == NothingToReach
    else
      SomeMisrouted(jobs, cases, |cases|, v) || (v.Unreadable? && SomeUndecided(jobs, cases, |cases|, v.job))
  }

  /** One routing case over all jobs. */
  method Admitting(jobs: seq<Job>, c: Case) returns (admitted: seq<string>, unread: set<string>)
    ensures admitted == Admitted(jobs, c.ctx)
    ensures forall n :: n in unread <==> Undecided(jobs, c, n)
  {
    hide EvalIf;
    admitted, unread := [], {};
    for i := 0 to |jobs|
      invariant admitted == Admitted(jobs[..i], c.ctx)
      invariant forall n :: n in unread <==> Undecided(jobs[..i], c, n)
    {
      assert jobs[..i + 1] == jobs[..i] + [jobs[i]];
      assert jobs[..i + 1][..i] == jobs[..i];
      var verdict := EvalIf(jobs[i].condition, c.ctx);
      if verdict.None? {
        unread := unread + {jobs[i].name};
        continue;
      }
      if verdict.value {
        admitted := admitted + [jobs[i].name];
      }
    }
    assert jobs[..|jobs|] == jobs;
  }

  ghost predicate SomeMisrouted(jobs: seq<Job>, cases: seq<Case>, n: nat, v: Violation)
    requires n <= |cases|
  {
    exists k :: 0 <= k < n && Misrouted(jobs, cases[k], v)
  }

  ghost predicate SomeUndecided(jobs: seq<Job>, cases: seq<Case>, n: nat, name: string)
    requires n <= |cases|
  {
    exists k :: 0 <= k < n && Undecided(jobs, cases[k], name)
  }

  /** The loop over the routing cases. */
  method RouteCases(legs: seq<Job>, cases: seq<Case>) returns (out: seq<Violation>, unreadable: set<string>)
    ensures forall v :: v in out <==> SomeMisrouted(legs, cases, |cases|, v)
    ensures forall n :: n in unreadable <==> SomeUndecided(legs, cases, |cases|, n)
  {
    hide Admitted, Admits, Undecided;
    out, unreadable := [], {};
    for i := 0 to |cases|
      invariant forall v :: v in out <==> SomeMisrouted(legs, cases, i, v)
      invariant forall n :: n in unreadable <==> SomeUndecided(legs, cases, i, n)
    {
      var c := cases[i];
      var admitted, unread := Admitting(legs, c);
      AdmittedSome(legs, c.ctx);
      unreadable := unreadable + unread;
      if c.want && admitted == [] {
        out := out + [NotAdmitted(c.push)];
      }
      if !c.want && admitted != [] {
        out := out + [AdmittedBy(c.push, admitted)];
      }
    }
  }

  method CheckLanes(jobs: seq<Job>, cases: seq<Case>) returns (out: seq<Violation>)
    ensures forall v :: v in out <==> IsViolation(TestJobs(jobs), cases, v)
  {
    hide TestJobs, SomeMisrouted, SomeUndecided;
    var legs := TestJobs(jobs);
    if legs == [] {
      return [NothingToReach];
    }
    var unreadable: set<string>;
    out, unreadable := RouteCases(legs, cases);
    var names := Elements(unreadable);
    SortHolds(names);
    names := Sort(names);
    ghost var before := out;
    for i := 0 to |names|
      invariant forall v :: v in out <==> v in before || (v.Unreadable? && v.job in names[..i])
    {
      out := out + [Unreadable(names[i])];
    }
    assert names[..|names|] == names;
  }

  /** Nothing is reported exactly when there is a test job and in every case each of their conditions
      is empty or a readable formula, one of them being empty or true just when a job must be admitted. */
  lemma SilentIff(jobs: seq<Job>, cases: seq<Case>)
    ensures (forall v :: !IsViolation(jobs, cases, v)) <==>
              jobs != [] && forall c :: c in cases ==> RoutedAsWanted(jobs, c)
  {
    hide EvalIf, Means, RoutedAsWanted, Admitted, Admits, Undecided;
    if jobs == [] {
      assert IsViolation(jobs, cases, NothingToReach);
    } else {
      forall k | 0 <= k < |cases|
        ensures RoutedAsWanted(jobs, cases[k]) <==>
                cases[k].want == Admits(jobs, cases[k].ctx) && forall n :: !Undecided(jobs, cases[k], n)
      {
        RoutedIff(jobs, cases[k]);
      }
      forall k | 0 <= k < |cases| && cases[k].want != Admits(jobs, cases[k].ctx)
        ensures exists v :: IsViolation(jobs, cases, v)
      {
        var c := cases[k];
        var v := if c.want then NotAdmitted(c.push) else AdmittedBy(c.push, Admitted(jobs, c.ctx));
        assert Misrouted(jobs, c, v);
        assert SomeMisrouted(jobs, cases, |cases|, v);
        assert IsViolation(jobs, cases, v);
      }
      forall k, n | 0 <= k < |cases| && Undecided(jobs, cases[k], n) ensures exists v :: IsViolation(jobs, cases, v) {
        assert SomeUndecided(jobs, cases, |cases|, n);
        assert IsViolation(jobs, cases, Unreadable(n));
      }
    }
  }

  lemma RoutedIff(jobs: seq<Job>, c: Case)
    ensures RoutedAsWanted(jobs, c) <==> c.want == Admits(jobs, c.ctx) && forall n :: !Undecided(jobs, c, n)
  {
    hide EvalIf, Means;
    forall j: Job, b: bool ensures EvalIf(j.condition, c.ctx) == Some(b) <==> Means(j.condition, c.ctx, b) {
      EvalIff(j.condition, c.ctx, b);
    }
    forall j | j in jobs && EvalIf(j.condition, c.ctx).None? ensures Undecided(jobs, c, j.name) {
    }
    forall j: Job ensures EvalIf(j.condition, c.ctx).Some? <==> exists b :: Means(j.condition, c.ctx, b) {
      MeansSomething(j.condition, c.ctx);
    }
  }

  lemma MeansSomething(ts: seq<Token>, ctx: Context)
    ensures EvalIf(ts, ctx).Some? <==> exists b :: Means(ts, ctx, b)
  {
    hide EvalIf, Means;
    EvalIff(ts, ctx, true);
    EvalIff(ts, ctx, false);
    if EvalIf(ts, ctx).Some? {
      assert Means(ts, ctx, EvalIf(ts, ctx).value);
    }
    if b :| Means(ts, ctx, b) {
      assert b == true || b == false;
    }
  }

  /** A silent check of the workflow: an ordinary lane push reaches a Windows test job, a marked
      branch push reaches one, an unmarked branch push reaches none. */
  lemma LanesReach(jobs: seq<Job>)
    requires forall v :: !IsViolation(TestJobs(jobs), CASES, v)
    ensures exists j :: j in jobs && j.windows && j.tests && Means(j.condition, LANE, true)
    ensures exists j :: j in jobs && j.windows && j.tests && Means(j.condition, MARKED, true)
    ensures forall j :: j in jobs && j.windows && j.tests ==> Means(j.condition, UNMARKED, false)
  {
    hide Means, IsViolation;
    SilentIff(TestJobs(jobs), CASES);
    assert CASES[0] in CASES && CASES[1] in CASES && CASES[2] in CASES;
  }

  // ---- the workflow's own condition ----

  /** Not a publication, and a lane branch or a commit message with the marker. */
  const WINDOWS_LEG := And(Is(NotPublication), Paren(Or(Is(StartsWith("lane/")), Is(Marker("[ci-windows]")))))

  lemma WindowsLegDenotes(ctx: Context)
    requires ctx.event == "push" && ctx.publication.None?
    ensures Denotes(WINDOWS_LEG, ctx, Continues(ctx.ref, "lane/") || PartOf("[ci-windows]", ctx.messages))
  {
    hide Continues, PartOf;
    var lane, marked := Continues(ctx.ref, "lane/"), PartOf("[ci-windows]", ctx.messages);
    assert Denotes(Is(StartsWith("lane/")), ctx, lane);
    assert Denotes(Is(Marker("[ci-windows]")), ctx, marked);
    assert Denotes(Or(Is(StartsWith("lane/")), Is(Marker("[ci-windows]"))), ctx, lane || marked);
    assert Denotes(Is(NotPublication), ctx, true);
  }

  lemma WindowsLegAnswers(ctx: Context)
    requires ctx.event == "push" && ctx.publication.None?
    ensures EvalIf(Print(WINDOWS_LEG, 0), ctx) ==
            Some(Continues(ctx.ref, "lane/") || PartOf("[ci-windows]", ctx.messages))
  {
    hide EvalIf, Denotes, Continues, PartOf;
    WindowsLegDenotes(ctx);
    EvalSays(WINDOWS_LEG, ctx, Continues(ctx.ref, "lane/") || PartOf("[ci-windows]", ctx.messages));
  }

  lemma CasesAnswered()
    ensures EvalIf(Print(WINDOWS_LEG, 0), LANE) == Some(true)
    ensures EvalIf(Print(WINDOWS_LEG, 0), MARKED) == Some(true)
    ensures EvalIf(Print(WINDOWS_LEG, 0), UNMARKED) == Some(false)
  {
    hide EvalIf, Print;
    WindowsLegAnswers(LANE);
    assert LANE.ref == "lane/" + "f13-example";
    WindowsLegAnswers(MARKED);
    assert MARKED.messages == "chore: poke " + "[ci-windows]" + "";
    WindowsLegAnswers(UNMARKED);
    NoLane();
    NoMarker();
  }

  lemma NoLane()
    ensures !Continues("wip/whatever", "lane/")
  {
    forall rest ensures "wip/whatever" != "lane/" + rest {
      assert ("lane/" + rest)[0] == 'l';
    }
  }

  lemma NoMarker()
    ensures !PartOf("[ci-windows]", "chore: poke")
  {
    forall x, y ensures "chore: poke" != x + "[ci-windows]" + y {
      assert |x + "[ci-windows]" + y| >= 12;
    }
  }

  /** A workflow whose only Windows test leg has that condition is routed as wanted: nothing is reported. */
  lemma WindowsLegSilent(name: string, v: Violation)
    ensures !IsViolation(TestJobs([Job(name, true, true, Print(WINDOWS_LEG, 0))]), CASES, v)
  {
    hide EvalIf, Print, IsViolation;
    var job := Job(name, true, true, Print(WINDOWS_LEG, 0));
    OneTestJob(job);
    CasesAnswered();
    forall c | c in CASES ensures RoutedAsWanted([job], c) {
      AnsweredIsRouted(job, c);
    }
    SilentIff([job], CASES);
  }

  lemma OneTestJob(job: Job)
    requires job.windows && job.tests
    ensures TestJobs([job]) == [job]
  {
    assert [job][1..] == [];
  }

  lemma AnsweredIsRouted(job: Job, c: Case)
    requires EvalIf(job.condition, c.ctx) == Some(c.want)
    ensures RoutedAsWanted([job], c)
  {
    hide EvalIf, Means;
    EvalIff(job.condition, c.ctx, true);
    EvalIff(job.condition, c.ctx, false);
    assert Means(job.condition, c.ctx, c.want);
    assert job in [job];
  }
}
