/** Graph work of the env-globals gate: the packages a test binary links, and the
    tests that reach a helper's write (scripts/check-test-env-globals.py, `scan`). */
module EnvGraph {
  import opened Common

  // ---- linked packages ----

  /** Workspace packages and the dependency names of each. */
  type Packages = map<string, set<string>>

  /** Dependencies that are packages of the workspace. */
  function Deps(pkgs: Packages, x: string): set<string>
    requires x in pkgs
  {
    pkgs[x] * pkgs.Keys
  }

  /** A chain of dependencies within the workspace. */
  ghost predicate Path(pkgs: Packages, p: seq<string>) {
    p != [] && (forall k :: 0 <= k < |p| ==> p[k] in pkgs) &&
    forall k :: 0 <= k < |p| - 1 ==> p[k + 1] in pkgs[p[k]]
  }

  ghost predicate Linked(pkgs: Packages, n: string, x: string) {
    exists p :: Path(pkgs, p) && p[0] == n && p[|p| - 1] == x
  }

  lemma LinkedSelf(pkgs: Packages, n: string)
    requires n in pkgs
    ensures Linked(pkgs, n, n)
  {
    assert Path(pkgs, [n]);
  }

  lemma LinkedStep(pkgs: Packages, n: string, x: string, y: string)
    requires Linked(pkgs, n, x) && x in pkgs && y in Deps(pkgs, x)
    ensures Linked(pkgs, n, y)
  {
    var p :| Path(pkgs, p) && p[0] == n && p[|p| - 1] == x;
    assert Path(pkgs, p + [y]);
  }

  /** Nothing outside a set that holds `n` and is closed under dependencies is linked. */
  lemma {:induction false} LinkedWithin(pkgs: Packages, p: seq<string>, s: set<string>)
    requires Path(pkgs, p) && p[0] in s
    requires forall x :: x in s ==> x in pkgs && Deps(pkgs, x) <= s
    ensures p[|p| - 1] in s
    decreases |p|
  {
    if |p| > 1 {
      assert p[1] in Deps(pkgs, p[0]);
      LinkedWithin(pkgs, p[1..], s);
    }
  }

  /** The worklist: terminates on cyclic dependencies and returns exactly what is linked. */
  method Closure(pkgs: Packages, n: string) returns (seen: set<string>)
    ensures forall x :: x in seen <==> Linked(pkgs, n, x)
  {
    hide Path;
    seen := {};
    var st := [n];
    while st != []
      invariant seen <= pkgs.Keys && (n in pkgs ==> n in seen || n in st)
      invariant forall x :: x in seen ==> Linked(pkgs, n, x)
      invariant forall x :: x in st && x in pkgs ==> Linked(pkgs, n, x) || x == n
      invariant forall x, y :: x in seen && y in Deps(pkgs, x) ==> y in seen || y in st
      decreases pkgs.Keys - seen, |st|
    {
      var x := st[|st| - 1];
      ghost var earlier := st;
      st := st[..|st| - 1];
      assert forall y :: y in earlier ==> y in st || y == x;
      assert forall y :: y in st ==> y in earlier;
      if x in seen || x !in pkgs {
        continue;
      }
      if x == n {
        LinkedSelf(pkgs, n);
      }
      var more := Elements(Deps(pkgs, x));
      forall y | y in Deps(pkgs, x) ensures Linked(pkgs, n, y) {
        LinkedStep(pkgs, n, x, y);
      }
      seen := seen + {x};
      st := st + more;
    }
    ClosedIsAll(pkgs, n, seen);
  }

  lemma ClosedIsAll(pkgs: Packages, n: string, seen: set<string>)
    requires n in pkgs ==> n in seen
    requires forall x :: x in seen ==> x in pkgs && Deps(pkgs, x) <= seen
    ensures forall x :: Linked(pkgs, n, x) ==> x in seen
  {
    forall x | Linked(pkgs, n, x) ensures x in seen {
      var p :| Path(pkgs, p) && p[0] == n && p[|p| - 1] == x;
      LinkedWithin(pkgs, p, seen);
    }
  }

  // ---- callers of a helper ----

  datatype Kind = UnserializedTest | SerialAttr | LockGuarded | Helper

  /** A function that mentions a key, `None` when the mention is in no function. */
  datatype Mention = Mention(fn: Option<string>, kind: Kind)

  /** Mentions of a key in one binary, as a type (`true`) or as a function name. */
  type Calls = map<(string, bool), seq<Mention>>

  function Mentions(g: Calls, key: string, qualified: bool): seq<Mention> {
    if (key, qualified) in g then g[(key, qualified)] else []
  }

  predicate IsCaller(key: string, m: Mention) {
    m.fn.Some? && m.fn.value != key
  }

  function CallersOf(g: Calls, key: string, qualified: bool): (r: seq<Mention>)
    ensures forall m :: m in r <==> m in Mentions(g, key, qualified) && IsCaller(key, m)
    ensures forall m :: m in r ==> m.fn.Some?
  {
    Filter(key, Mentions(g, key, qualified))
  }

  function Filter(key: string, ms: seq<Mention>): (r: seq<Mention>)
    ensures forall m :: m in r <==> m in ms && IsCaller(key, m)
  {
    if ms == [] then []
    else if IsCaller(key, ms[0]) then [ms[0]] + Filter(key, ms[1..])
    else Filter(key, ms[1..])
  }

  /** The callers of a key: the functions other than itself that mention it. */
  lemma CallersSay(g: Calls, key: string, qualified: bool, m: Mention)
    ensures m in CallersOf(g, key, qualified) <==>
              (key, qualified) in g && m in g[(key, qualified)] && m.fn != None && m.fn != Some(key)
  {
  }

  /** A caller of kind `kind` is reached from `(name, qualified)` over at most `k` call
      edges, every intermediate caller being a helper. */
  ghost predicate Reaches(g: Calls, name: string, qualified: bool, kind: Kind, k: nat)
    decreases k, 1
  {
    k > 0 && exists m :: m in CallersOf(g, name, qualified) && ReachesVia(g, m, kind, k)
  }

  ghost predicate ReachesVia(g: Calls, m: Mention, kind: Kind, k: nat)
    requires k > 0 && m.fn.Some?
    decreases k, 0
  {
    if m.kind.Helper? then Reaches(g, m.fn.value, false, kind, k - 1) else m.kind == kind
  }

  /** How the search looks a name up: the root key as it was given, every other name as a function. */
  predicate Mode(key: string, qualified: bool, name: string) {
    name == key && qualified
  }

  /** The same, every name being looked up in the one mode the search knows for it. */
  ghost predicate ReachesByName(g: Calls, key: string, qualified: bool, name: string, kind: Kind, k: nat)
    decreases k, 1
  {
    k > 0 && exists m :: m in CallersOf(g, name, Mode(key, qualified, name)) && ByNameVia(g, key, qualified, m, kind, k)
  }

  ghost predicate ByNameVia(g: Calls, key: string, qualified: bool, m: Mention, kind: Kind, k: nat)
    requires k > 0 && m.fn.Some?
    decreases k, 0
  {
    if m.kind.Helper? then ReachesByName(g, key, qualified, m.fn.value, kind, k - 1) else m.kind == kind
  }

  lemma {:induction false} ReachesLonger(g: Calls, key: string, qualified: bool, name: string, kind: Kind, k: nat,
                                         j: nat)
    requires ReachesByName(g, key, qualified, name, kind, k) && k <= j
    ensures ReachesByName(g, key, qualified, name, kind, j)
    decreases k
  {
    var m :| m in CallersOf(g, name, Mode(key, qualified, name)) && ByNameVia(g, key, qualified, m, kind, k);
    if m.kind.Helper? {
      ReachesLonger(g, key, qualified, m.fn.value, kind, k - 1, j - 1);
    }
  }

  /** Every caller of `name` is accounted for: its kind in the verdict, or, for a helper, its name listed. */
  ghost predicate Expanded(g: Calls, key: string, qualified: bool, name: string, verdict: set<Kind>,
                           names: set<string>) {
    forall m :: m in CallersOf(g, name, Mode(key, qualified, name)) ==>
      if m.kind.Helper? then m.fn.value in names else m.kind in verdict
  }

  /** What an expanded name reaches is in the verdict or reached from a name still open. */
  lemma {:induction false} ExpandedCovers(g: Calls, key: string, qualified: bool, seen: set<string>, open: set<string>,
                                          verdict: set<Kind>, name: string, kind: Kind, k: nat)
    requires forall x :: x in seen ==> Expanded(g, key, qualified, x, verdict, seen + open)
    requires name in seen && ReachesByName(g, key, qualified, name, kind, k)
    ensures kind in verdict || exists y :: y in open && ReachesByName(g, key, qualified, y, kind, k - 1)
    decreases k
  {
    hide CallersOf, Mode;
    var m :| m in CallersOf(g, name, Mode(key, qualified, name)) && ByNameVia(g, key, qualified, m, kind, k);
    if m.kind.Helper? {
      var y := m.fn.value;
      if y !in open {
        ExpandedCovers(g, key, qualified, seen, open, verdict, y, kind, k - 1);
        if kind !in verdict {
          var z :| z in open && ReachesByName(g, key, qualified, z, kind, k - 2);
          ReachesLonger(g, key, qualified, z, kind, k - 2, k - 1);
        }
      }
    }
  }

  /** State of the search between two levels, `k` levels being left. */
  ghost predicate SearchInv(g: Calls, key: string, qualified: bool, seen: set<string>, frontier: set<string>,
                            verdict: set<Kind>, k: nat)
    requires k <= 3
  {
    (forall x :: x in seen ==> Expanded(g, key, qualified, x, verdict, seen + frontier)) &&
    (forall kind :: kind in verdict ==> kind != Helper && ReachesByName(g, key, qualified, key, kind, 3)) &&
    (forall kind, y :: y in frontier && ReachesByName(g, key, qualified, y, kind, k) ==>
                         ReachesByName(g, key, qualified, key, kind, 3)) &&
    (forall kind :: ReachesByName(g, key, qualified, key, kind, 3) && kind !in verdict ==>
                      exists y :: y in frontier && ReachesByName(g, key, qualified, y, kind, k))
  }

  function Names(f: seq<(string, bool)>): set<string> {
    set x | x in f :: x.0
  }

  lemma NamesConcat(a: seq<(string, bool)>, b: seq<(string, bool)>)
    ensures Names(a + b) == Names(a) + Names(b)
  {
  }

  /** The inner loop: kinds of the test callers of one name, and its helper callers. */
  method CallersByKind(callers: seq<Mention>) returns (kinds: set<Kind>, helpers: seq<(string, bool)>)
    requires forall m :: m in callers ==> m.fn.Some?
    ensures forall m :: m in callers ==> if m.kind.Helper? then m.fn.value in Names(helpers) else m.kind in kinds
    ensures forall kind :: kind in kinds ==> exists m :: m in callers && m.kind == kind && !m.kind.Helper?
    ensures forall y :: y in Names(helpers) ==> exists m :: m in callers && m.kind.Helper? && m.fn.value == y
    ensures forall f :: f in helpers ==> !f.1
  {
    kinds, helpers := {}, [];
    for j := 0 to |callers|
      invariant forall i :: 0 <= i < j ==>
                  if callers[i].kind.Helper? then callers[i].fn.value in Names(helpers) else callers[i].kind in kinds
      invariant forall kind :: kind in kinds ==> exists m :: m in callers && m.kind == kind && !m.kind.Helper?
      invariant forall y :: y in Names(helpers) ==> exists m :: m in callers && m.kind.Helper? && m.fn.value == y
      invariant forall f :: f in helpers ==> !f.1
    {
      var m := callers[j];
      if m.kind.Helper? {
        NamesConcat(helpers, [(m.fn.value, false)]);
        helpers := helpers + [(m.fn.value, false)];
      } else {
        kinds := kinds + {m.kind};
      }
    }
  }

  /** Within a level: some of the frontier has been expanded, the rest is still to come. */
  ghost predicate LevelInv(g: Calls, key: string, qualified: bool, seen: set<string>, rest: set<string>,
                           nxt: set<string>, verdict: set<Kind>, k: nat)
    requires 0 < k <= 3
  {
    (forall x :: x in seen ==> Expanded(g, key, qualified, x, verdict, seen + rest + nxt)) &&
    (forall kind :: kind in verdict ==> kind != Helper && ReachesByName(g, key, qualified, key, kind, 3)) &&
    (forall kind, y :: y in rest && ReachesByName(g, key, qualified, y, kind, k) ==>
                         ReachesByName(g, key, qualified, key, kind, 3)) &&
    (forall kind, y :: y in nxt && ReachesByName(g, key, qualified, y, kind, k - 1) ==>
                         ReachesByName(g, key, qualified, key, kind, 3))
  }

  lemma ReachesOne(g: Calls, key: string, qualified: bool, name: string, m: Mention, kind: Kind, k: nat)
    requires k > 0 && m in CallersOf(g, name, Mode(key, qualified, name)) && ByNameVia(g, key, qualified, m, kind, k)
    ensures ReachesByName(g, key, qualified, name, kind, k)
  {
  }

  /** Expanding one more name of the frontier. */
  lemma ExpandOne(g: Calls, key: string, qualified: bool, seen: set<string>, rest: set<string>, nxt: set<string>,
                  verdict: set<Kind>, k: nat, name: string, kinds: set<Kind>, helpers: set<string>)
    requires 0 < k <= 3 && LevelInv(g, key, qualified, seen, rest + {name}, nxt, verdict, k)
    requires var callers := CallersOf(g, name, Mode(key, qualified, name));
             (forall m :: m in callers ==> if m.kind.Helper? then m.fn.value in helpers else m.kind in kinds) &&
             (forall kind :: kind in kinds ==> exists m :: m in callers && m.kind == kind && !m.kind.Helper?) &&
             (forall y :: y in helpers ==> exists m :: m in callers && m.kind.Helper? && m.fn.value == y)
    ensures LevelInv(g, key, qualified, seen + {name}, rest, nxt + helpers, verdict + kinds, k)
  {
    hide CallersOf, ReachesByName;
    var callers := CallersOf(g, name, Mode(key, qualified, name));
    forall kind | kind in kinds ensures kind != Helper && ReachesByName(g, key, qualified, key, kind, 3) {
      var m :| m in callers && m.kind == kind && !m.kind.Helper?;
      ReachesOne(g, key, qualified, name, m, kind, k);
    }
    forall kind, y | y in helpers && ReachesByName(g, key, qualified, y, kind, k - 1)
      ensures ReachesByName(g, key, qualified, key, kind, 3)
    {
      var m :| m in callers && m.kind.Helper? && m.fn.value == y;
      ReachesOne(g, key, qualified, name, m, kind, k);
    }
  }

  /** A level is over: its names are all expanded, the next frontier is open. */
  lemma LevelEnds(g: Calls, key: string, qualified: bool, before: set<string>, frontier: set<string>,
                  earlier: set<Kind>,
                  seen: set<string>, nxt: set<string>, verdict: set<Kind>, k: nat)
    requires 0 < k <= 3 && SearchInv(g, key, qualified, before, frontier, earlier, k)
    requires LevelInv(g, key, qualified, seen, {}, nxt, verdict, k) && frontier <= seen && earlier <= verdict
    ensures SearchInv(g, key, qualified, seen, nxt, verdict, k - 1)
  {
    hide Expanded, ReachesByName;
    assert seen + {} + nxt == seen + nxt;
    forall kind | ReachesByName(g, key, qualified, key, kind, 3) && kind !in verdict
      ensures exists y :: y in nxt && ReachesByName(g, key, qualified, y, kind, k - 1)
    {
      var y :| y in frontier && ReachesByName(g, key, qualified, y, kind, k);
      ExpandedCovers(g, key, qualified, seen, nxt, verdict, y, kind, k);
    }
  }

  lemma LevelStarts(g: Calls, key: string, qualified: bool, seen: set<string>, frontier: set<string>,
                    verdict: set<Kind>, k: nat)
    requires 0 < k <= 3 && SearchInv(g, key, qualified, seen, frontier, verdict, k)
    ensures LevelInv(g, key, qualified, seen, frontier, {}, verdict, k)
  {
    hide Expanded, ReachesByName;
    assert seen + frontier + {} == seen + frontier;
  }

  lemma SearchStarts(g: Calls, key: string, qualified: bool)
    ensures SearchInv(g, key, qualified, {}, {key}, {}, 3)
  {
    hide ReachesByName;
  }

  lemma SearchEnds(g: Calls, key: string, qualified: bool, seen: set<string>, frontier: set<string>,
                   verdict: set<Kind>, k: nat)
    requires k <= 3 && SearchInv(g, key, qualified, seen, frontier, verdict, k) && (k == 0 || frontier == {})
    ensures forall kind :: kind in verdict <==> ReachesByName(g, key, qualified, key, kind, 3)
  {
    hide Expanded;
  }

  /** A name already expanded leaves the frontier. */
  lemma SkipSeen(g: Calls, key: string, qualified: bool, seen: set<string>, rest: set<string>, nxt: set<string>,
                 verdict: set<Kind>, k: nat, name: string)
    requires 0 < k <= 3 && name in seen && LevelInv(g, key, qualified, seen, rest + {name}, nxt, verdict, k)
    ensures LevelInv(g, key, qualified, seen, rest, nxt, verdict, k)
  {
    hide Expanded, ReachesByName;
    assert seen + (rest + {name}) + nxt == seen + rest + nxt;
  }

  /** The bounded search: three levels of callers, no name expanded twice. */
  method ResolveCallers(g: Calls, key: string, qualified: bool) returns (verdict: set<Kind>)
    ensures forall kind :: kind in verdict <==> ReachesByName(g, key, qualified, key, kind, 3)
  {
    hide SearchInv, LevelInv, ReachesByName, CallersOf, Names;
    var seen: set<string>, frontier := {}, [(key, qualified)];
    verdict := {};
    var level := 0;
    NamesOne(key, qualified);
    SearchStarts(g, key, qualified);
    while level < 3
      invariant 0 <= level <= 3
      invariant SearchInv(g, key, qualified, seen, Names(frontier), verdict, 3 - level)
      invariant seen != {} ==> key in seen
      invariant seen == {} ==> level == 0 && frontier == [(key, qualified)]
      invariant forall f :: f in frontier ==> f.0 in seen || f.1 == Mode(key, qualified, f.0)
    {
      ghost var before, earlier := seen, verdict;
      ghost var k := 3 - level;
      var nxt := [];
      LevelStarts(g, key, qualified, seen, Names(frontier), verdict, k);
      NamesNone();
      for i := 0 to |frontier|
        invariant LevelInv(g, key, qualified, seen, Names(frontier[i..]), Names(nxt), verdict, k)
        invariant Names(frontier[..i]) <= seen && before <= seen && earlier <= verdict
        invariant seen != {} ==> key in seen
        invariant i > 0 ==> seen != {}
        invariant seen == {} ==> frontier == [(key, qualified)] && nxt == []
        invariant forall f :: f in frontier ==> f.0 in seen || f.1 == Mode(key, qualified, f.0)
        invariant forall f :: f in nxt ==> f.0 in seen || f.1 == Mode(key, qualified, f.0)
      {
        var (name, qual) := frontier[i];
        NamesSplit(frontier, i);
        assert frontier[i] in frontier;
        if name in seen {
          SkipSeen(g, key, qualified, seen, Names(frontier[i + 1..]), Names(nxt), verdict, k, name);
          continue;
        }
        var kinds, helpers := CallersByKind(CallersOf(g, name, qual));
        ExpandOne(g, key, qualified, seen, Names(frontier[i + 1..]), Names(nxt), verdict, k, name, kinds,
            Names(helpers));
        NamesConcat(nxt, helpers);
        seen := seen + {name};
        verdict := verdict + kinds;
        nxt := nxt + helpers;
      }
      assert frontier[|frontier|..] == [] && frontier[..|frontier|] == frontier;
      LevelEnds(g, key, qualified, before, Names(frontier), earlier, seen, Names(nxt), verdict, k);
      frontier := nxt;
      level := level + 1;
      if frontier == [] {
        break;
      }
    }
    SearchEnds(g, key, qualified, seen, Names(frontier), verdict, 3 - level);
  }

  lemma NamesOne(key: string, q: bool)
    ensures Names([(key, q)]) == {key}
  {
    assert (key, q) in [(key, q)];
  }

  lemma NamesNone()
    ensures Names([]) == {}
  {
  }

  lemma NamesSplit(f: seq<(string, bool)>, i: nat)
    requires i < |f|
    ensures Names(f[i..]) == Names(f[i + 1..]) + {f[i].0}
    ensures Names(f[..i + 1]) == Names(f[..i]) + {f[i].0}
  {
    assert f[i..] == [f[i]] + f[i + 1..];
    assert f[..i + 1] == f[..i] + [f[i]];
    NamesConcat([f[i]], f[i + 1..]);
    NamesConcat(f[..i], [f[i]]);
    NamesOne(f[i].0, f[i].1);
  }

  // ---- what the search means ----

  /** A helper that is named like the qualified root key, among the callers of anything. */
  ghost predicate SharesName(g: Calls, key: string, qualified: bool) {
    qualified && exists name, q, m :: m in CallersOf(g, name, q) && m.kind.Helper? && m.fn.value == key
  }

  /** Reached over a chain of at most `k` call edges in which no helper is named `shun`. */
  ghost predicate ReachesPast(g: Calls, shun: Option<string>, name: string, qualified: bool, kind: Kind, k: nat)
    decreases k, 1
  {
    k > 0 && exists m :: m in CallersOf(g, name, qualified) && PastVia(g, shun, m, kind, k)
  }

  ghost predicate PastVia(g: Calls, shun: Option<string>, m: Mention, kind: Kind, k: nat)
    requires k > 0 && m.fn.Some?
    decreases k, 0
  {
    if m.kind.Helper? then m.fn != shun && ReachesPast(g, shun, m.fn.value, false, kind, k - 1) else m.kind == kind
  }

  /** The name a search from the key cannot look up a second time. */
  function Shunned(key: string, qualified: bool): Option<string> {
    if qualified then Some(key) else None
  }

  lemma {:induction false} PastLonger(g: Calls, shun: Option<string>, name: string, qualified: bool, kind: Kind, k: nat)
    requires ReachesPast(g, shun, name, qualified, kind, k)
    ensures ReachesPast(g, shun, name, qualified, kind, k + 1)
    decreases k
  {
    hide CallersOf;
    var m :| m in CallersOf(g, name, qualified) && PastVia(g, shun, m, kind, k);
    if m.kind.Helper? {
      PastLonger(g, shun, m.fn.value, false, kind, k - 1);
    }
    assert PastVia(g, shun, m, kind, k + 1);
  }

  /** What the search reaches from a name is reached past the shunned one, from there or from the key itself. */
  lemma {:induction false} FoundPast(g: Calls, key: string, qualified: bool, name: string, kind: Kind, k: nat)
    requires ReachesByName(g, key, qualified, name, kind, k)
    ensures ReachesPast(g, Shunned(key, qualified), name, Mode(key, qualified, name), kind, k) ||
            ReachesPast(g, Shunned(key, qualified), key, qualified, kind, k)
    decreases k
  {
    hide CallersOf;
    var shun := Shunned(key, qualified);
    var m :| m in CallersOf(g, name, Mode(key, qualified, name)) && ByNameVia(g, key, qualified, m, kind, k);
    if m.kind.Helper? {
      var y := m.fn.value;
      FoundPast(g, key, qualified, y, kind, k - 1);
      if ReachesPast(g, shun, key, qualified, kind, k - 1) {
        PastLonger(g, shun, key, qualified, kind, k - 1);
      } else {
        assert PastVia(g, shun, m, kind, k);
      }
    } else {
      assert PastVia(g, shun, m, kind, k);
    }
  }

  lemma {:induction false} PastFound(g: Calls, key: string, qualified: bool, name: string, kind: Kind, k: nat)
    requires ReachesPast(g, Shunned(key, qualified), name, Mode(key, qualified, name), kind, k)
    ensures ReachesByName(g, key, qualified, name, kind, k)
    decreases k
  {
    hide CallersOf;
    var m :| m in CallersOf(g, name, Mode(key, qualified, name)) && PastVia(g, Shunned(key, qualified), m, kind, k);
    if m.kind.Helper? {
      PastFound(g, key, qualified, m.fn.value, kind, k - 1);
    }
    assert ByNameVia(g, key, qualified, m, kind, k);
  }

  /** On every call graph, cyclic or not, the search finds exactly the kinds reached over at
      most three call edges past no helper that is named like a qualified root key. */
  lemma SearchIsReachPast(g: Calls, key: string, qualified: bool, kind: Kind)
    ensures ReachesByName(g, key, qualified, key, kind, 3) <==>
            ReachesPast(g, Shunned(key, qualified), key, qualified, kind, 3)
  {
    assert Mode(key, qualified, key) == qualified;
    if ReachesByName(g, key, qualified, key, kind, 3) {
      FoundPast(g, key, qualified, key, kind, 3);
    }
    if ReachesPast(g, Shunned(key, qualified), key, qualified, kind, 3) {
      PastFound(g, key, qualified, key, kind, 3);
    }
  }

  /** Shunning a name only loses chains, and loses none when no helper bears it. */
  lemma {:induction false} PastIsReach(g: Calls, shun: Option<string>, name: string, qualified: bool, kind: Kind,
                                       k: nat)
    ensures ReachesPast(g, shun, name, qualified, kind, k) ==> Reaches(g, name, qualified, kind, k)
    ensures (forall n, q, m :: m in CallersOf(g, n, q) && m.kind.Helper? ==> m.fn != shun) ==>
              Reaches(g, name, qualified, kind, k) ==> ReachesPast(g, shun, name, qualified, kind, k)
    decreases k
  {
    hide CallersOf;
    if k > 0 {
      forall m | m in CallersOf(g, name, qualified)
        ensures PastVia(g, shun, m, kind, k) ==> ReachesVia(g, m, kind, k)
        ensures (forall n, q, m :: m in CallersOf(g, n, q) && m.kind.Helper? ==> m.fn != shun) ==>
                  ReachesVia(g, m, kind, k) ==> PastVia(g, shun, m, kind, k)
      {
        if m.kind.Helper? {
          PastIsReach(g, shun, m.fn.value, false, kind, k - 1);
        }
      }
    }
  }

  /** The search never finds what is not reached; and where no helper shares a qualified root
      key's name it finds exactly the kinds reached over at most three call edges. */
  lemma SearchIsReach(g: Calls, key: string, qualified: bool, kind: Kind)
    ensures ReachesByName(g, key, qualified, key, kind, 3) ==> Reaches(g, key, qualified, kind, 3)
    ensures !SharesName(g, key, qualified) ==>
              (ReachesByName(g, key, qualified, key, kind, 3) <==> Reaches(g, key, qualified, kind, 3))
  {
    hide CallersOf, Reaches, ReachesByName, ReachesPast;
    SearchIsReachPast(g, key, qualified, kind);
    PastIsReach(g, Shunned(key, qualified), key, qualified, kind, 3);
  }

  /** With such a helper a test can be missed: type `A` is used by a helper also
      called `A`, which an unserialized test calls; the name is not looked up again. */
  lemma SharedNameMisses() returns (g: Calls)
    ensures SharesName(g, "A", true)
    ensures Reaches(g, "A", true, UnserializedTest, 3)
    ensures !ReachesByName(g, "A", true, "A", UnserializedTest, 3)
  {
    var h := Mention(Some("h"), Helper);
    var a := Mention(Some("A"), Helper);
    var t := Mention(Some("t"), UnserializedTest);
    g := map[("A", true) := [h], ("h", false) := [a], ("A", false) := [t]];
    hide CallersOf;
    assert forall m :: m in CallersOf(g, "A", true) ==> m == h;
    assert forall m :: m in CallersOf(g, "h", false) ==> m == a;
    assert forall m :: m in CallersOf(g, "A", false) ==> m == t;
    assert h in Mentions(g, "A", true) && a in Mentions(g, "h", false) && t in Mentions(g, "A", false);
    assert a in CallersOf(g, "h", false);
    assert t in CallersOf(g, "A", false) && ReachesVia(g, t, UnserializedTest, 1);
    assert Reaches(g, "A", false, UnserializedTest, 1);
    assert ReachesVia(g, a, UnserializedTest, 2);
    assert Reaches(g, "h", false, UnserializedTest, 2);
    assert h in CallersOf(g, "A", true) && ReachesVia(g, h, UnserializedTest, 3);
    assert !ReachesByName(g, "A", true, "A", UnserializedTest, 1);
    assert !ReachesByName(g, "A", true, "h", UnserializedTest, 2);
  }

  // ---- the kind of a helper write ----

  datatype WriteKind = UnserializedHelper | SerializedHelper | Unattributable | Unreached

  /** A pending helper write: the function it is in, the type of its `impl` block, and
      how many functions of that name the binary declares. */
  method ClassifyPending(g: Calls, fn: Option<string>, ty: Option<string>, declared: nat) returns (kind: WriteKind)
    ensures kind == Unattributable <==> ty.None? && (fn.None? || declared != 1)
    ensures kind != Unattributable ==>
              var (key, q) := (if ty.Some? then ty.value else fn.value, ty.Some?);
              (kind == UnserializedHelper <==> ReachesPast(g, Shunned(key, q), key, q, UnserializedTest, 3)) &&
              (kind == Unreached <==> forall k :: !ReachesPast(g, Shunned(key, q), key, q, k, 3)) &&
              (kind == UnserializedHelper ==> Reaches(g, key, q, UnserializedTest, 3)) &&
              (!SharesName(g, key, q) ==>
                 (kind == UnserializedHelper <==> Reaches(g, key, q, UnserializedTest, 3)) &&
                 (kind == Unreached <==> forall k :: !Reaches(g, key, q, k, 3)))
  {
    hide ReachesByName, ReachesPast, Reaches, SharesName;
    if ty.None? && (fn.None? || declared != 1) {
      return Unattributable;
    }
    var key := if ty.Some? then ty.value else fn.value;
    var verdict := ResolveCallers(g, key, ty.Some?);
    forall k
      ensures k in verdict <==> ReachesPast(g, Shunned(key, ty.Some?), key, ty.Some?, k, 3)
      ensures k in verdict ==> Reaches(g, key, ty.Some?, k, 3)
      ensures !SharesName(g, key, ty.Some?) ==> (k in verdict <==> Reaches(g, key, ty.Some?, k, 3))
    {
      SearchIsReachPast(g, key, ty.Some?, k);
      SearchIsReach(g, key, ty.Some?, k);
    }
    if UnserializedTest in verdict {
      return UnserializedHelper;
    } else if verdict != {} {
      return SerializedHelper;
    }
    kind := Unreached;
  }
}
