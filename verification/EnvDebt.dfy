/** The debt partition of the env-globals gate: which hazardous sites fail, which
    are held back, which are stated debt (scripts/check-test-env-globals.py, `partition`). */
module EnvDebt {
  import opened Common

  datatype SiteKind = UnserializedTest | UnserializedHelper | Serialized

  /** A write site: the file it is in, its kind and the function that writes. */
  datatype Site = Site(file: string, line: nat, kind: SiteKind, fn: string)

  /** A pair (variable, binary) with the production readers of the variable. */
  datatype Pair = Pair(v: string, binary: string, readers: seq<string>)

  datatype Key = Key(binary: string, v: string, site: string)

  /** A pair with the sites that decided its fate. */
  datatype Finding = Finding(pair: Pair, sites: seq<Site>)

  type Sites = map<(string, string), seq<Site>>
  type Debt = map<Key, string>

  function SiteKey(s: Site): string {
    s.file + "::" + s.fn
  }

  function KeyOf(p: Pair, s: Site): Key {
    Key(p.binary, p.v, SiteKey(s))
  }

  function SitesOf(sites: Sites, p: Pair): seq<Site> {
    if (p.binary, p.v) in sites then sites[(p.binary, p.v)] else []
  }

  predicate Hazardous(s: Site) {
    s.kind != Serialized
  }

  /** A debt line covers one helper site, never a direct write. */
  predicate Covered(debt: Debt, p: Pair, s: Site) {
    s.kind == UnserializedHelper && KeyOf(p, s) in debt
  }

  /** Hazardous sites of the pair, kept (`covered` or not) in order. */
  function Select(debt: Debt, p: Pair, ss: seq<Site>, covered: bool): seq<Site> {
    if ss == [] then []
    else if Hazardous(ss[0]) && Covered(debt, p, ss[0]) == covered then [ss[0]] + Select(debt, p, ss[1..], covered)
    else Select(debt, p, ss[1..], covered)
  }

  datatype Fate = NoHazard | Excused | Live | Sole

  function FateOf(sites: Sites, tests: map<string, nat>, debt: Debt, p: Pair): Fate {
    var ss := SitesOf(sites, p);
    if Select(debt, p, ss, false) == [] then
      if Select(debt, p, ss, true) == [] then NoHazard else Excused
    else if p.binary in tests && tests[p.binary] >= 2 then Live else Sole
  }

  /** The findings of one bucket: excused pairs keep their covered sites, failing ones the uncovered. */
  function Bucket(sites: Sites, tests: map<string, nat>, debt: Debt, pairs: seq<Pair>, fate: Fate): seq<Finding> {
    if pairs == [] then []
    else
      (if FateOf(sites, tests, debt, pairs[0]) == fate
       then [Finding(pairs[0], Select(debt, pairs[0], SitesOf(sites, pairs[0]), fate == Excused))] else []) +
      Bucket(sites, tests, debt, pairs[1..], fate)
  }

  /** Keys that covered a site. */
  ghost predicate Covers(sites: Sites, debt: Debt, pairs: seq<Pair>, k: Key) {
    exists p, s :: p in pairs && s in SitesOf(sites, p) && Covered(debt, p, s) && KeyOf(p, s) == k
  }

  lemma {:induction false} SelectHolds(debt: Debt, p: Pair, ss: seq<Site>, c: bool, s: Site)
    ensures s in Select(debt, p, ss, c) <==> s in ss && Hazardous(s) && Covered(debt, p, s) == c
  {
    hide Covered, Hazardous;
    if ss != [] {
      SelectHolds(debt, p, ss[1..], c, s);
    }
  }

  lemma {:induction false} SelectSnoc(debt: Debt, p: Pair, ss: seq<Site>, s: Site, c: bool)
    ensures Select(debt, p, ss + [s], c) ==
            Select(debt, p, ss, c) + if Hazardous(s) && Covered(debt, p, s) == c then [s] else []
  {
    hide Covered, Hazardous;
    if ss == [] {
      assert ss + [s] == [s] && [s][1..] == [];
    } else {
      SelectSnoc(debt, p, ss[1..], s, c);
      assert (ss + [s])[1..] == ss[1..] + [s];
    }
  }

  lemma SelectNothing(debt: Debt, p: Pair)
    ensures forall c: bool :: Select(debt, p, [], c) == []
  {
  }

  /** The inner loop: split the hazardous sites of one pair. */
  method SplitSites(debt: Debt, p: Pair, ss: seq<Site>)
    returns (covered: seq<Site>, uncovered: seq<Site>, used: set<Key>)
    ensures covered == Select(debt, p, ss, true) && uncovered == Select(debt, p, ss, false)
    ensures forall k :: k in used <==> exists s :: s in ss && Covered(debt, p, s) && KeyOf(p, s) == k
  {
    hide Select, KeyOf;
    covered, uncovered, used := [], [], {};
    SelectNothing(debt, p);
    assert ss[..0] == [];
    for i := 0 to |ss|
      invariant covered == Select(debt, p, ss[..i], true) && uncovered == Select(debt, p, ss[..i], false)
      invariant forall k :: k in used <==> exists s :: s in ss[..i] && Covered(debt, p, s) && KeyOf(p, s) == k
    {
      var s := ss[i];
      assert ss[..i + 1] == ss[..i] + [s];
      SelectSnoc(debt, p, ss[..i], s, true);
      SelectSnoc(debt, p, ss[..i], s, false);
      if !Hazardous(s) {
        continue;
      }
      if s.kind == UnserializedHelper && KeyOf(p, s) in debt {
        used := used + {KeyOf(p, s)};
        covered := covered + [s];
      } else {
        uncovered := uncovered + [s];
      }
    }
    assert ss[..|ss|] == ss;
  }

  lemma {:induction false} BucketSnoc(sites: Sites, tests: map<string, nat>, debt: Debt, pairs: seq<Pair>, p: Pair,
                                      f: Fate)
    ensures Bucket(sites, tests, debt, pairs + [p], f) ==
            Bucket(sites, tests, debt, pairs, f) +
            if FateOf(sites, tests, debt, p) == f
            then [Finding(p, Select(debt, p, SitesOf(sites, p), f == Excused))] else []
  {
    hide FateOf, Select, SitesOf;
    if pairs == [] {
      assert pairs + [p] == [p] && [p][1..] == [];
    } else {
      var q, rest := pairs[0], pairs[1..];
      BucketSnoc(sites, tests, debt, rest, p, f);
      BucketCons(sites, tests, debt, q, rest, f);
      BucketCons(sites, tests, debt, q, rest + [p], f);
      hide Bucket;
      Assoc(if FateOf(sites, tests, debt, q) == f
            then [Finding(q, Select(debt, q, SitesOf(sites, q), f == Excused))] else [],
            Bucket(sites, tests, debt, rest, f),
            if FateOf(sites, tests, debt, p) == f
            then [Finding(p, Select(debt, p, SitesOf(sites, p), f == Excused))] else []);
      assert pairs == [q] + rest && pairs + [p] == [q] + (rest + [p]);
    }
  }

  lemma BucketCons(sites: Sites, tests: map<string, nat>, debt: Debt, q: Pair, rest: seq<Pair>, f: Fate)
    ensures Bucket(sites, tests, debt, [q] + rest, f) ==
            (if FateOf(sites, tests, debt, q) == f
             then [Finding(q, Select(debt, q, SitesOf(sites, q), f == Excused))] else []) +
            Bucket(sites, tests, debt, rest, f)
  {
    hide FateOf, Select, SitesOf;
    assert ([q] + rest)[1..] == rest;
  }

  method Partition(pairs: seq<Pair>, sites: Sites, tests: map<string, nat>, debt: Debt)
    returns (live: seq<Finding>, sole: seq<Finding>, excused: seq<Finding>, used: set<Key>)
    ensures live == Bucket(sites, tests, debt, pairs, Live)
    ensures sole == Bucket(sites, tests, debt, pairs, Sole)
    ensures excused == Bucket(sites, tests, debt, pairs, Excused)
    ensures forall k :: k in used <==> Covers(sites, debt, pairs, k)
  {
    hide Select, Bucket, SitesOf;
    live, sole, excused, used := [], [], [], {};
    BucketsStart(sites, tests, debt);
    assert pairs[..0] == [];
    for i := 0 to |pairs|
      invariant live == Bucket(sites, tests, debt, pairs[..i], Live)
      invariant sole == Bucket(sites, tests, debt, pairs[..i], Sole)
      invariant excused == Bucket(sites, tests, debt, pairs[..i], Excused)
      invariant forall k :: k in used <==> Covers(sites, debt, pairs[..i], k)
    {
      var p := pairs[i];
      assert pairs[..i + 1] == pairs[..i] + [p];
      BucketSnoc(sites, tests, debt, pairs[..i], p, Live);
      BucketSnoc(sites, tests, debt, pairs[..i], p, Sole);
      BucketSnoc(sites, tests, debt, pairs[..i], p, Excused);
      var covered, uncovered, keys := SplitSites(debt, p, SitesOf(sites, p));
      CoversSnoc(sites, debt, pairs[..i], p, used, keys);
      used := used + keys;
      if covered == [] && uncovered == [] {
        continue;
      }
      if uncovered == [] {
        excused := excused + [Finding(p, covered)];
        continue;
      }
      if p.binary in tests && tests[p.binary] >= 2 {
        live := live + [Finding(p, uncovered)];
      } else {
        sole := sole + [Finding(p, uncovered)];
      }
    }
    assert pairs[..|pairs|] == pairs;
  }

  lemma BucketsStart(sites: Sites, tests: map<string, nat>, debt: Debt)
    ensures forall f: Fate :: Bucket(sites, tests, debt, [], f) == []
    ensures forall k :: !Covers(sites, debt, [], k)
  {
  }

  lemma CoversSnoc(sites: Sites, debt: Debt, pairs: seq<Pair>, p: Pair, used: set<Key>, keys: set<Key>)
    requires forall k :: k in used <==> Covers(sites, debt, pairs, k)
    requires forall k :: k in keys <==> exists s :: s in SitesOf(sites, p) && Covered(debt, p, s) && KeyOf(p, s) == k
    ensures forall k :: k in used + keys <==> Covers(sites, debt, pairs + [p], k)
  {
    hide SitesOf, Covered;
    forall k | k in used + keys ensures Covers(sites, debt, pairs + [p], k) {
      if k in used {
        var q, s :| q in pairs && s in SitesOf(sites, q) && Covered(debt, q, s) && KeyOf(q, s) == k;
        assert q in pairs + [p];
      } else {
        var s :| s in SitesOf(sites, p) && Covered(debt, p, s) && KeyOf(p, s) == k;
        assert p in pairs + [p];
      }
    }
    forall k | Covers(sites, debt, pairs + [p], k) ensures k in used + keys {
      var q, s :| q in pairs + [p] && s in SitesOf(sites, q) && Covered(debt, q, s) && KeyOf(q, s) == k;
      if q in pairs {
        assert Covers(sites, debt, pairs, k);
      }
    }
  }

  // ---- what the partition guarantees ----

  ghost predicate InBucket(b: seq<Finding>, p: Pair) {
    exists f :: f in b && f.pair == p
  }

  lemma {:induction false} BucketHas(sites: Sites, tests: map<string, nat>, debt: Debt, pairs: seq<Pair>, fate: Fate,
                                     f: Finding)
    ensures f in Bucket(sites, tests, debt, pairs, fate) <==>
              f.pair in pairs && FateOf(sites, tests, debt, f.pair) == fate &&
              f.sites == Select(debt, f.pair, SitesOf(sites, f.pair), fate == Excused)
  {
    hide FateOf, Select, SitesOf;
    if pairs != [] {
      BucketHas(sites, tests, debt, pairs[1..], fate, f);
    }
  }

  lemma BucketIs(sites: Sites, tests: map<string, nat>, debt: Debt, pairs: seq<Pair>, fate: Fate, p: Pair)
    requires p in pairs
    ensures InBucket(Bucket(sites, tests, debt, pairs, fate), p) <==> FateOf(sites, tests, debt, p) == fate
  {
    hide FateOf, Select, SitesOf, Bucket;
    var f := Finding(p, Select(debt, p, SitesOf(sites, p), fate == Excused));
    BucketHas(sites, tests, debt, pairs, fate, f);
    if InBucket(Bucket(sites, tests, debt, pairs, fate), p) {
      var g :| g in Bucket(sites, tests, debt, pairs, fate) && g.pair == p;
      BucketHas(sites, tests, debt, pairs, fate, g);
    }
  }

  /** Every pair with a hazardous site is in exactly one of the three buckets, every other pair in none. */
  lemma ExactlyOneBucket(sites: Sites, tests: map<string, nat>, debt: Debt, pairs: seq<Pair>, p: Pair)
    requires p in pairs
    ensures var live := InBucket(Bucket(sites, tests, debt, pairs, Live), p);
            var sole := InBucket(Bucket(sites, tests, debt, pairs, Sole), p);
            var excused := InBucket(Bucket(sites, tests, debt, pairs, Excused), p);
            !(live && sole) && !(live && excused) && !(sole && excused) &&
            (live || sole || excused <==> exists s :: s in SitesOf(sites, p) && Hazardous(s))
  {
    BucketIs(sites, tests, debt, pairs, Live, p);
    BucketIs(sites, tests, debt, pairs, Sole, p);
    BucketIs(sites, tests, debt, pairs, Excused, p);
    FateHazard(sites, tests, debt, p);
    hide FateOf, InBucket, Bucket;
  }

  lemma FateHazard(sites: Sites, tests: map<string, nat>, debt: Debt, p: Pair)
    ensures FateOf(sites, tests, debt, p) != NoHazard <==> exists s :: s in SitesOf(sites, p) && Hazardous(s)
  {
    var ss := SitesOf(sites, p);
    var no, yes := Select(debt, p, ss, false), Select(debt, p, ss, true);
    if s :| s in ss && Hazardous(s) {
      SelectHolds(debt, p, ss, true, s);
      SelectHolds(debt, p, ss, false, s);
    }
    if no != [] {
      SelectHolds(debt, p, ss, false, no[0]);
    }
    if yes != [] {
      SelectHolds(debt, p, ss, true, yes[0]);
    }
  }

  /** An excused pair has no direct write, and every hazardous site of it is listed as debt. */
  lemma DirectNeverExcused(sites: Sites, tests: map<string, nat>, debt: Debt, p: Pair)
    ensures FateOf(sites, tests, debt, p) == Excused ==>
              forall s :: s in SitesOf(sites, p) && Hazardous(s) ==> s.kind == UnserializedHelper && KeyOf(p, s) in debt
    ensures forall s :: s in SitesOf(sites, p) && s.kind == UnserializedTest ==>
              FateOf(sites, tests, debt, p) in {Live, Sole} && s in Select(debt, p, SitesOf(sites, p), false)
  {
    var ss := SitesOf(sites, p);
    var no := Select(debt, p, ss, false);
    forall s | s in ss && Hazardous(s) ensures Covered(debt, p, s) || s in no {
      SelectHolds(debt, p, ss, false, s);
    }
  }

  /** One more debt line changes the treatment of that one site key only. */
  lemma OneLineOneSite(debt: Debt, k: Key, reason: string, p: Pair, s: Site)
    requires KeyOf(p, s) != k
    ensures Covered(debt[k := reason], p, s) == Covered(debt, p, s)
  {
  }

  /** A pair with no site of that key keeps its bucket and its sites. */
  lemma {:induction false} OtherPairsUntouched(sites: Sites, tests: map<string, nat>, debt: Debt, k: Key,
                                               reason: string,
                                               p: Pair, c: bool)
    requires forall s :: s in SitesOf(sites, p) ==> KeyOf(p, s) != k
    ensures FateOf(sites, tests, debt[k := reason], p) == FateOf(sites, tests, debt, p)
    ensures Select(debt[k := reason], p, SitesOf(sites, p), c) == Select(debt, p, SitesOf(sites, p), c)
  {
    SelectUntouched(debt, k, reason, p, SitesOf(sites, p), true);
    SelectUntouched(debt, k, reason, p, SitesOf(sites, p), false);
  }

  lemma {:induction false} SelectUntouched(debt: Debt, k: Key, reason: string, p: Pair, ss: seq<Site>, c: bool)
    requires forall s :: s in ss ==> KeyOf(p, s) != k
    ensures Select(debt[k := reason], p, ss, c) == Select(debt, p, ss, c)
  {
    if ss != [] {
      OneLineOneSite(debt, k, reason, p, ss[0]);
      hide Covered, KeyOf;
      SelectUntouched(debt, k, reason, p, ss[1..], c);
    }
  }

  /** In a pair that has sites of that key, the line moves exactly those helper sites from failing to covered. */
  lemma LineMovesItsSites(debt: Debt, k: Key, reason: string, p: Pair, ss: seq<Site>, s: Site)
    requires k !in debt
    ensures s in Select(debt[k := reason], p, ss, true) <==>
              s in Select(debt, p, ss, true) || (s in ss && s.kind == UnserializedHelper && KeyOf(p, s) == k)
    ensures s in Select(debt[k := reason], p, ss, false) <==>
              s in Select(debt, p, ss, false) && !(s.kind == UnserializedHelper && KeyOf(p, s) == k)
  {
    hide Select, KeyOf;
    var more := debt[k := reason];
    SelectHolds(more, p, ss, true, s);
    SelectHolds(more, p, ss, false, s);
    SelectHolds(debt, p, ss, true, s);
    SelectHolds(debt, p, ss, false, s);
  }

  /** File and function names that hold no separator: different sites have different keys. */
  lemma SiteKeysDiffer(a: Site, b: Site)
    requires SiteKey(a) == SiteKey(b) && ':' !in a.fn && ':' !in b.fn
    ensures a.file == b.file && a.fn == b.fn
  {
    var s := SiteKey(a);
    var n, m := |a.file|, |b.file|;
    assert s[n] == ':' && s[n + 1] == ':' && s[m] == ':' && s[m + 1] == ':';
    assert forall k :: n + 2 <= k < |s| ==> s[k] == a.fn[k - n - 2];
    assert forall k :: m + 2 <= k < |s| ==> s[k] == b.fn[k - m - 2];
    assert n == m;
    assert a.file == s[..n] && b.file == s[..n];
    assert a.fn == s[n + 2..] && b.fn == s[n + 2..];
  }

  // ---- the buckets, site by site ----

  /** `s` is one of the write sites found for the pair. */
  predicate SiteOf(sites: Sites, p: Pair, s: Site) {
    (p.binary, p.v) in sites && s in sites[(p.binary, p.v)]
  }

  /** A debt line names the pair's binary, its variable and the site. */
  predicate Listed(debt: Debt, p: Pair, s: Site) {
    Key(p.binary, p.v, s.file + "::" + s.fn) in debt
  }

  /** A write the gate does not forgive: straight from a test, or from a helper without a debt line. */
  predicate Unforgiven(debt: Debt, p: Pair, s: Site) {
    s.kind == UnserializedTest || (s.kind == UnserializedHelper && !Listed(debt, p, s))
  }

  predicate Forgiven(debt: Debt, p: Pair, s: Site) {
    s.kind == UnserializedHelper && Listed(debt, p, s)
  }

  ghost predicate Owes(sites: Sites, debt: Debt, p: Pair) {
    exists s :: SiteOf(sites, p, s) && Unforgiven(debt, p, s)
  }

  /** More tests than one run in the process of the binary. */
  predicate Shared(tests: map<string, nat>, p: Pair) {
    p.binary in tests && tests[p.binary] > 1
  }

  lemma SelectSays(sites: Sites, debt: Debt, p: Pair, s: Site)
    ensures s in Select(debt, p, SitesOf(sites, p), true) <==> SiteOf(sites, p, s) && Forgiven(debt, p, s)
    ensures s in Select(debt, p, SitesOf(sites, p), false) <==> SiteOf(sites, p, s) && Unforgiven(debt, p, s)
  {
    SelectHolds(debt, p, SitesOf(sites, p), true, s);
    SelectHolds(debt, p, SitesOf(sites, p), false, s);
  }

  lemma FateSays(sites: Sites, tests: map<string, nat>, debt: Debt, p: Pair)
    ensures FateOf(sites, tests, debt, p) == Live <==> Owes(sites, debt, p) && Shared(tests, p)
    ensures FateOf(sites, tests, debt, p) == Sole <==> Owes(sites, debt, p) && !Shared(tests, p)
    ensures FateOf(sites, tests, debt, p) == Excused <==>
              !Owes(sites, debt, p) && exists s :: SiteOf(sites, p, s) && Forgiven(debt, p, s)
  {
    hide Forgiven, Unforgiven, SiteOf, SitesOf, Select;
    var no, yes := Select(debt, p, SitesOf(sites, p), false), Select(debt, p, SitesOf(sites, p), true);
    forall s ensures s in yes <==> SiteOf(sites, p, s) && Forgiven(debt, p, s) {
      SelectSays(sites, debt, p, s);
    }
    forall s ensures s in no <==> SiteOf(sites, p, s) && Unforgiven(debt, p, s) {
      SelectSays(sites, debt, p, s);
    }
    assert no != [] ==> no[0] in no;
    assert yes != [] ==> yes[0] in yes;
  }

  /** A pair with an unforgiven write fails the gate when its binary runs at least two tests and is only
      reported when it does not; it is excused when every hazardous write of it is a listed helper's. */
  lemma BucketsSay(sites: Sites, tests: map<string, nat>, debt: Debt, pairs: seq<Pair>, p: Pair)
    ensures InBucket(Bucket(sites, tests, debt, pairs, Live), p) <==>
              p in pairs && Owes(sites, debt, p) && p.binary in tests && tests[p.binary] >= 2
    ensures InBucket(Bucket(sites, tests, debt, pairs, Sole), p) <==>
              p in pairs && Owes(sites, debt, p) && (p.binary in tests ==> tests[p.binary] < 2)
    ensures InBucket(Bucket(sites, tests, debt, pairs, Excused), p) <==>
              p in pairs && (exists s :: SiteOf(sites, p, s) && s.kind != Serialized) &&
              forall s :: SiteOf(sites, p, s) && s.kind != Serialized ==>
                s.kind == UnserializedHelper && Listed(debt, p, s)
  {
    hide Bucket, FateOf, SiteOf, Listed;
    if p in pairs {
      BucketIs(sites, tests, debt, pairs, Live, p);
      BucketIs(sites, tests, debt, pairs, Sole, p);
      BucketIs(sites, tests, debt, pairs, Excused, p);
      FateSays(sites, tests, debt, p);
    } else {
      BucketNeeds(sites, tests, debt, pairs, Live, p);
      BucketNeeds(sites, tests, debt, pairs, Sole, p);
      BucketNeeds(sites, tests, debt, pairs, Excused, p);
    }
  }

  lemma BucketNeeds(sites: Sites, tests: map<string, nat>, debt: Debt, pairs: seq<Pair>, fate: Fate, p: Pair)
    requires p !in pairs
    ensures !InBucket(Bucket(sites, tests, debt, pairs, fate), p)
  {
    hide FateOf, Select, SitesOf, Bucket;
    if f :| f in Bucket(sites, tests, debt, pairs, fate) && f.pair == p {
      BucketHas(sites, tests, debt, pairs, fate, f);
    }
  }

  /** A failing or reported pair shows its unforgiven writes, an excused one its forgiven writes. */
  lemma FindingsShow(sites: Sites, tests: map<string, nat>, debt: Debt, pairs: seq<Pair>, fate: Fate, f: Finding,
                     s: Site)
    requires f in Bucket(sites, tests, debt, pairs, fate)
    ensures fate in {Live, Sole} ==> (s in f.sites <==> SiteOf(sites, f.pair, s) && Unforgiven(debt, f.pair, s))
    ensures fate == Excused ==> (s in f.sites <==> SiteOf(sites, f.pair, s) && Forgiven(debt, f.pair, s))
  {
    hide FateOf, Select, SitesOf, Bucket, SiteOf, Forgiven, Unforgiven;
    BucketHas(sites, tests, debt, pairs, fate, f);
    SelectSays(sites, debt, f.pair, s);
  }

  /** The buckets keep the order of the pairs, and the findings the order of the sites. */
  lemma {:induction false} BucketsInOrder(sites: Sites, tests: map<string, nat>, debt: Debt, a: seq<Pair>, b: seq<Pair>,
                                          fate: Fate)
    ensures Bucket(sites, tests, debt, a + b, fate) ==
            Bucket(sites, tests, debt, a, fate) + Bucket(sites, tests, debt, b, fate)
    ensures |a| == 1 ==> |Bucket(sites, tests, debt, a, fate)| <= 1
    decreases |b|
  {
    hide FateOf, Select, SitesOf;
    if b == [] {
      assert a + b == a;
    } else {
      var rest, p := b[..|b| - 1], b[|b| - 1];
      BucketsInOrder(sites, tests, debt, a, rest, fate);
      BucketSnoc(sites, tests, debt, a + rest, p, fate);
      BucketSnoc(sites, tests, debt, rest, p, fate);
      assert rest + [p] == b && (a + rest) + [p] == a + b;
    }
    if |a| == 1 {
      assert a[1..] == [];
    }
  }

  // ---- the gate ----

  const CONTROL := "WAYLAND_MAX_STREAM_RETRIES"

  ghost predicate IntegrationBinary(tests: map<string, nat>) {
    exists b :: b in tests && PartOf("::", b)
  }

  /** Every debt line forgives a write of some pair. */
  ghost predicate NoStaleLine(sites: Sites, debt: Debt, pairs: seq<Pair>) {
    forall k :: k in debt ==> Named(sites, pairs, k)
  }

  /** The key of a helper's write. */
  ghost predicate Named(sites: Sites, pairs: seq<Pair>, k: Key) {
    exists p, s ::
      p in pairs && SiteOf(sites, p, s) && s.kind == UnserializedHelper &&
      k == Key(p.binary, p.v, s.file + "::" + s.fn)
  }

  /** Both controls, then the partition, then the stale lines; `complaints` are those of the debt and the skip list. */
  method Gate(pairs: seq<Pair>, sites: Sites, tests: map<string, nat>, debt: Debt, complaints: nat)
    returns (exit: nat)
    ensures exit in {0, 1, 2}
    ensures exit == 2 <==> (forall p :: p in pairs ==> p.v != "WAYLAND_MAX_STREAM_RETRIES") || !IntegrationBinary(tests)
    ensures exit == 0 <==>
              (exists p :: p in pairs && p.v == "WAYLAND_MAX_STREAM_RETRIES") && IntegrationBinary(tests) &&
              complaints == 0 && NoStaleLine(sites, debt, pairs) &&
              forall p :: p in pairs && p.binary in tests && tests[p.binary] >= 2 ==> !Owes(sites, debt, p)
  {
    hide Bucket, SitesOf, Select, SiteOf, Listed, IntegrationBinary, NoStaleLine;
    if !exists p :: p in pairs && p.v == CONTROL {
      return 2;
    }
    var integration := set b | b in tests && Find(b, "::") < |b|;
    IntegrationFound(tests, integration);
    if integration == {} {
      return 2;
    }
    var live, sole, excused, used := Partition(pairs, sites, tests, debt);
    var stale := debt.Keys - used;
    StaleLines(sites, debt, pairs, used);
    if complaints > 0 || stale != {} {
      return 1;
    }
    LiveEmpty(sites, tests, debt, pairs);
    exit := if live == [] then 0 else 1;
  }

  lemma IntegrationFound(tests: map<string, nat>, integration: set<string>)
    requires integration == set b | b in tests && Find(b, "::") < |b|
    ensures integration != {} <==> IntegrationBinary(tests)
  {
    hide Find, PartOf;
    forall b: string ensures Find(b, "::") < |b| <==> PartOf("::", b) {
      FindSays(b, "::");
    }
    if b :| b in tests && PartOf("::", b) {
      assert b in integration;
    }
  }

  lemma StaleLines(sites: Sites, debt: Debt, pairs: seq<Pair>, used: set<Key>)
    requires forall k :: k in used <==> Covers(sites, debt, pairs, k)
    ensures debt.Keys - used == {} <==> NoStaleLine(sites, debt, pairs)
  {
    hide Named;
    forall k | k in debt ensures k in used <==> Named(sites, pairs, k) {
      NamedCovers(sites, debt, pairs, k);
    }
    if debt.Keys - used == {} {
      assert forall k :: k in debt ==> k in debt.Keys - used || k in used;
    }
  }

  lemma NamedCovers(sites: Sites, debt: Debt, pairs: seq<Pair>, k: Key)
    requires k in debt
    ensures Covers(sites, debt, pairs, k) <==> Named(sites, pairs, k)
  {
    if p, s :| p in pairs && SiteOf(sites, p, s) && s.kind == UnserializedHelper &&
               k == Key(p.binary, p.v, s.file + "::" + s.fn) {
      assert s in SitesOf(sites, p) && Covered(debt, p, s) && KeyOf(p, s) == k;
    }
    if Covers(sites, debt, pairs, k) {
      var p, s :| p in pairs && s in SitesOf(sites, p) && Covered(debt, p, s) && KeyOf(p, s) == k;
      assert SiteOf(sites, p, s);
    }
  }

  lemma LiveEmpty(sites: Sites, tests: map<string, nat>, debt: Debt, pairs: seq<Pair>)
    ensures Bucket(sites, tests, debt, pairs, Live) == [] <==>
              forall p :: p in pairs && p.binary in tests && tests[p.binary] >= 2 ==> !Owes(sites, debt, p)
  {
    hide Bucket, SiteOf, Listed;
    var live := Bucket(sites, tests, debt, pairs, Live);
    forall p ensures InBucket(live, p) <==>
                       p in pairs && Owes(sites, debt, p) && p.binary in tests && tests[p.binary] >= 2
    {
      BucketsSay(sites, tests, debt, pairs, p);
    }
    if live != [] {
      assert live[0] in live && InBucket(live, live[0].pair);
    }
  }
}
