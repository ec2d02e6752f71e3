/** The model-limits gate: recorded limits graded against the rows of vendor-operated
    endpoints (scripts/check-model-limits-freshness.py, `scan_passthrough`). */
module LimitsGate {
  import opened Common
  import opened StringOrder

  /** Context and output as a catalogue reports them; 0 stands for missing. */
  datatype Row = Row(id: string, ctx: nat, out: nat)

  /** Providers and their rows. */
  type Catalogue = map<string, seq<Row>>

  datatype Family = Family(name: string, providers: seq<string>, openWeights: bool)

  /** What the gate is configured with: how ids are made canonical, which canonical ids
      of a family are in scope, and which exact disagreements are pinned. */
  datatype Config = Config(canonical: string -> string, inScope: (string, string) -> bool, pins: set<Pin>)

  datatype Dimension = Context | Output

  datatype Pin = Pin(id: string, dim: Dimension, ours: nat, floor: nat)

  datatype Arm = Arm(out: nat, ctx: nat)

  /** The arm an id resolves to. */
  type Arms = string -> Option<Arm>

  datatype Finding =
    | HostVariable(family: string, id: string, low: nat, high: nat, hosts: set<string>)
    | NoArm(family: string, id: string, floor: nat, out: Option<nat>, hosts: set<string>)
    | Over(family: string, pin: Pin, hosts: set<string>, pinned: bool)
    | Under(family: string, pin: Pin, hosts: set<string>, pinned: bool)

  /** Whether the finding reddens the release. */
  predicate Fails(f: Finding) {
    match f
    case HostVariable(_, _, _, _, _) => false
    case NoArm(_, _, _, _, _) => true
    case Over(_, _, _, pinned) => !pinned
    case Under(_, _, _, pinned) => !pinned
  }

  // ---- which rows count ----

  /** A row with the provider it is of. */
  type Tagged = (string, Row)

  /** A host's row for a canonical id; rows without a context are not a datum. */
  ghost predicate HostRow(cfg: Config, cat: Catalogue, id: string, t: Tagged) {
    t.0 in cat && t.1 in cat[t.0] && cfg.canonical(t.1.id) == id && t.1.ctx != 0
  }

  ghost predicate VendorRow(cfg: Config, cat: Catalogue, fam: Family, id: string, t: Tagged) {
    t.0 in fam.providers && HostRow(cfg, cat, id, t) && cfg.inScope(fam.name, id)
  }

  /** A known output: one that does not merely repeat the context. */
  predicate KnownOut(r: Row) {
    r.out != 0 && r.out != r.ctx
  }

  /** Rows gathered for one id. */
  datatype Obs = Obs(ctx: seq<nat>, out: seq<nat>, hosts: set<string>)

  /** `o` is what the rows `done` say of `id`. */
  ghost predicate Gathers(cfg: Config, fam: Family, done: set<Tagged>, id: string, o: Obs) {
    o.ctx != [] &&
    (forall x :: x in o.ctx <==> exists t :: t in done && Counts(cfg, fam, id, t) && t.1.ctx == x) &&
    (forall x :: x in o.out <==> exists t :: t in done && Counts(cfg, fam, id, t) && KnownOut(t.1) && t.1.out == x) &&
    (forall h :: h in o.hosts <==> exists t :: t in done && Counts(cfg, fam, id, t) && t.0 == h)
  }

  predicate Counts(cfg: Config, fam: Family, id: string, t: Tagged) {
    cfg.canonical(t.1.id) == id && cfg.inScope(fam.name, id) && t.1.ctx != 0
  }

  ghost predicate Observed(cfg: Config, fam: Family, done: set<Tagged>, obs: map<string, Obs>) {
    (forall id :: id in obs ==> Gathers(cfg, fam, done, id, obs[id])) &&
    (forall t :: t in done && Counts(cfg, fam, cfg.canonical(t.1.id), t) ==> cfg.canonical(t.1.id) in obs)
  }

  function Extend(o: Obs, pid: string, r: Row): Obs {
    Obs(o.ctx + [r.ctx], if KnownOut(r) then o.out + [r.out] else o.out, o.hosts + {pid})
  }

  lemma ExtendGathers(cfg: Config, fam: Family, done: set<Tagged>, id: string, o: Obs, t: Tagged)
    requires Counts(cfg, fam, id, t)
    requires if o.ctx == [] then o == Obs([], [], {}) && forall u :: u in done ==> !Counts(cfg, fam, id, u)
             else Gathers(cfg, fam, done, id, o)
    ensures Gathers(cfg, fam, done + {t}, id, Extend(o, t.0, t.1))
  {
    hide Counts;
    var e := Extend(o, t.0, t.1);
    assert e.ctx[|o.ctx|] == t.1.ctx;
    assert KnownOut(t.1) ==> e.out[|o.out|] == t.1.out;
  }

  lemma OthersKeep(cfg: Config, fam: Family, done: set<Tagged>, id: string, o: Obs, t: Tagged)
    requires Gathers(cfg, fam, done, id, o) && !Counts(cfg, fam, id, t)
    ensures Gathers(cfg, fam, done + {t}, id, o)
  {
    hide Counts;
  }

  /** One row joins the observations. */
  method ObserveRow(cfg: Config, fam: Family, obs: map<string, Obs>, pid: string, r: Row, ghost done: set<Tagged>)
    returns (next: map<string, Obs>)
    requires Observed(cfg, fam, done, obs)
    ensures Observed(cfg, fam, done + {(pid, r)}, next)
  {
    hide Gathers;
    ghost var t := (pid, r);
    var id := cfg.canonical(r.id);
    forall k | k in obs && !Counts(cfg, fam, k, t) ensures Gathers(cfg, fam, done + {t}, k, obs[k]) {
      OthersKeep(cfg, fam, done, k, obs[k], t);
    }
    if !cfg.inScope(fam.name, id) || r.ctx == 0 {
      return obs;
    }
    var o := if id in obs then obs[id] else Obs([], [], {});
    if id in obs {
      GatheredNonempty(cfg, fam, done, id, obs[id]);
    }
    ExtendGathers(cfg, fam, done, id, o, t);
    next := obs[id := Extend(o, pid, r)];
  }

  lemma GatheredNonempty(cfg: Config, fam: Family, done: set<Tagged>, id: string, o: Obs)
    requires Gathers(cfg, fam, done, id, o)
    ensures o.ctx != []
  {
  }

  /** Every row of the family's providers. */
  ghost predicate AllRows(cat: Catalogue, providers: seq<string>, done: set<Tagged>) {
    forall t :: t in done <==> t.0 in providers && t.0 in cat && t.1 in cat[t.0]
  }

  ghost function RowsServed(cat: Catalogue, providers: seq<string>): set<Tagged> {
    set pid, r | pid in providers && pid in cat && r in cat[pid] :: (pid, r)
  }

  lemma RowsServedAll(cat: Catalogue, providers: seq<string>, done: set<Tagged>)
    ensures AllRows(cat, providers, done) <==> done == RowsServed(cat, providers)
  {
    forall t: Tagged ensures t in RowsServed(cat, providers) <==> t.0 in providers && t.0 in cat && t.1 in cat[t.0] {
      assert t == (t.0, t.1);
    }
  }

  method Observe(cfg: Config, cat: Catalogue, fam: Family) returns (obs: map<string, Obs>)
    ensures Observed(cfg, fam, RowsServed(cat, fam.providers), obs)
  {
    hide Observed;
    obs := map[];
    ghost var done: set<Tagged> := {};
    NothingObserved(cfg, fam);
    for i := 0 to |fam.providers|
      invariant Observed(cfg, fam, done, obs)
      invariant forall t :: t in done <==> t.0 in fam.providers[..i] && t.0 in cat && t.1 in cat[t.0]
    {
      var pid := fam.providers[i];
      var rows := if pid in cat then cat[pid] else [];
      ghost var before := done;
      for j := 0 to |rows|
        invariant Observed(cfg, fam, done, obs)
        invariant forall t :: t in done <==> t in before || (t.0 == pid && t.1 in rows[..j])
      {
        obs := ObserveRow(cfg, fam, obs, pid, rows[j], done);
        done := done + {(pid, rows[j])};
      }
    }
    assert fam.providers[..|fam.providers|] == fam.providers;
    RowsServedAll(cat, fam.providers, done);
  }

  lemma NothingObserved(cfg: Config, fam: Family)
    ensures Observed(cfg, fam, {}, map[])
  {
  }

  // ---- floors ----

  function MinOf(s: seq<nat>): (m: nat)
    requires s != []
    ensures m in s && forall x :: x in s ==> m <= x
  {
    assert s == [s[0]] + s[1..];
    if |s| == 1 then s[0] else Min(s[0], MinOf(s[1..]))
  }

  function MaxOf(s: seq<nat>): (m: nat)
    requires s != []
    ensures m in s && forall x :: x in s ==> x <= m
  {
    assert s == [s[0]] + s[1..];
    if |s| == 1 then s[0] else Max(s[0], MaxOf(s[1..]))
  }

  /** What the vendor rows of an id come to: their lowest context, their lowest known output, their hosts. */
  datatype Summary = Summary(floor: nat, out: Option<nat>, hosts: set<string>)

  ghost predicate Sums(cfg: Config, cat: Catalogue, fam: Family, id: string, s: Summary) {
    (exists t :: VendorRow(cfg, cat, fam, id, t) && t.1.ctx == s.floor) &&
    (forall t :: VendorRow(cfg, cat, fam, id, t) ==> s.floor <= t.1.ctx) &&
    (s.out.Some? ==> exists t :: VendorRow(cfg, cat, fam, id, t) && KnownOut(t.1) && t.1.out == s.out.value) &&
    (forall t :: VendorRow(cfg, cat, fam, id, t) && KnownOut(t.1) ==> s.out.Some? && s.out.value <= t.1.out) &&
    (forall h :: h in s.hosts <==> exists t :: VendorRow(cfg, cat, fam, id, t) && t.0 == h)
  }

  /** The rows determine the summary: their order is not part of it. */
  lemma SumsUnique(cfg: Config, cat: Catalogue, fam: Family, id: string, a: Summary, b: Summary)
    requires Sums(cfg, cat, fam, id, a) && Sums(cfg, cat, fam, id, b)
    ensures a == b
  {
    hide VendorRow;
    assert a.floor == b.floor;
    assert a.out == b.out;
    assert a.hosts == b.hosts;
  }

  function SummaryOf(o: Obs): Summary
    requires o.ctx != []
  {
    Summary(MinOf(o.ctx), if o.out == [] then None else Some(MinOf(o.out)), o.hosts)
  }

  lemma ObservedSums(cfg: Config, cat: Catalogue, fam: Family, obs: map<string, Obs>, id: string)
    requires Observed(cfg, fam, RowsServed(cat, fam.providers), obs) && id in obs
    ensures obs[id].ctx != [] && Sums(cfg, cat, fam, id, SummaryOf(obs[id]))
  {
    hide Gathers, AllRows, RowsServed, Sums, SummaryOf;
    var done := RowsServed(cat, fam.providers);
    RowsServedAll(cat, fam.providers, done);
    GatheredNonempty(cfg, fam, done, id, obs[id]);
    GatheredSums(cfg, cat, fam, done, id, obs[id]);
  }

  lemma GatheredSums(cfg: Config, cat: Catalogue, fam: Family, done: set<Tagged>, id: string, o: Obs)
    requires AllRows(cat, fam.providers, done) && Gathers(cfg, fam, done, id, o)
    ensures Sums(cfg, cat, fam, id, SummaryOf(o))
  {
    assert forall t :: VendorRow(cfg, cat, fam, id, t) <==> t in done && Counts(cfg, fam, id, t);
    hide VendorRow, AllRows, Counts, MinOf, KnownOut;
    var s := SummaryOf(o);
    assert s.floor in o.ctx && (o.out != [] ==> s.out.value in o.out);
    forall t | VendorRow(cfg, cat, fam, id, t)
      ensures s.floor <= t.1.ctx && (KnownOut(t.1) ==> o.out != [] && s.out.value <= t.1.out) && t.0 in s.hosts
    {
      assert t.1.ctx in o.ctx && (KnownOut(t.1) ==> t.1.out in o.out) && t.0 in o.hosts;
    }
  }

  // ---- how far the hosts of an id are apart ----

  /** Lowest and highest context over every host, and the hosts. */
  datatype Spread = Spread(low: nat, high: nat, hosts: set<string>)

  /** There are two rows, and `s` spans them all. */
  ghost predicate Spans(cfg: Config, cat: Catalogue, id: string, s: Spread) {
    (exists t :: HostRow(cfg, cat, id, t) && t.1.ctx == s.low) &&
    (exists t :: HostRow(cfg, cat, id, t) && t.1.ctx == s.high) &&
    (forall t :: HostRow(cfg, cat, id, t) ==> s.low <= t.1.ctx <= s.high) &&
    (forall h :: h in s.hosts <==> exists t :: HostRow(cfg, cat, id, t) && t.0 == h)
  }

  lemma SpansUnique(cfg: Config, cat: Catalogue, id: string, a: Spread, b: Spread)
    requires Spans(cfg, cat, id, a) && Spans(cfg, cat, id, b)
    ensures a == b
  {
    hide HostRow;
    assert a.low == b.low && a.high == b.high;
    assert a.hosts == b.hosts;
  }

  predicate IsHost(cfg: Config, id: string, t: Tagged) {
    cfg.canonical(t.1.id) == id && t.1.ctx != 0
  }

  datatype Place = Place(pid: string, n: nat)

  /** A place in the catalogue whose row serves the id with a context. */
  predicate HostAt(cfg: Config, cat: Catalogue, id: string, p: Place) {
    p.pid in cat && p.n < |cat[p.pid]| && IsHost(cfg, id, (p.pid, cat[p.pid][p.n]))
  }

  /** The places counted when the providers `front` and `j` rows of `pid` have been seen. */
  ghost predicate Places(cfg: Config, cat: Catalogue, id: string, front: set<string>, pid: string, j: nat,
                         at: set<Place>) {
    forall p :: p in at <==> HostAt(cfg, cat, id, p) && (p.pid in front || (p.pid == pid && p.n < j))
  }

  lemma PlaceOne(cfg: Config, cat: Catalogue, id: string, front: set<string>, pid: string, j: nat, at: set<Place>)
    requires Places(cfg, cat, id, front, pid, j, at) && pid !in front && pid in cat && j < |cat[pid]|
    ensures if IsHost(cfg, id, (pid, cat[pid][j]))
            then Place(pid, j) !in at && Places(cfg, cat, id, front, pid, j + 1, at + {Place(pid, j)})
            else Places(cfg, cat, id, front, pid, j + 1, at)
  {
    hide IsHost;
  }

  lemma PlacesTurn(cfg: Config, cat: Catalogue, id: string, front: set<string>, pid: string, next: string,
                   at: set<Place>)
    requires pid in cat && Places(cfg, cat, id, front, pid, |cat[pid]|, at)
    ensures Places(cfg, cat, id, front + {pid}, next, 0, at)
  {
    hide IsHost;
  }

  lemma PlacesStart(cfg: Config, cat: Catalogue, id: string, front: set<string>, pid: string, next: string,
                    at: set<Place>)
    requires Places(cfg, cat, id, front, pid, 0, at)
    ensures Places(cfg, cat, id, front, next, 0, at)
  {
  }

  /** There are not two places. */
  lemma FewPlaces(cfg: Config, cat: Catalogue, id: string, at: set<Place>)
    requires Places(cfg, cat, id, cat.Keys, "", 0, at)
    ensures |at| < 2 <==> forall a, b :: HostAt(cfg, cat, id, a) && HostAt(cfg, cat, id, b) ==> a == b
  {
    AllPlaces(cfg, cat, id, at);
    hide HostAt, Places;
    forall a, b | a in at && b in at && a != b ensures |at| >= 2 {
      assert at == {a, b} + (at - {a, b});
    }
    if |at| >= 2 {
      var a :| a in at;
      assert |at - {a}| > 0;
      var b :| b in at - {a};
      assert a != b && HostAt(cfg, cat, id, a) && HostAt(cfg, cat, id, b);
    }
  }

  /** Contexts and hosts of the places counted. */
  ghost predicate HostsSeen(cfg: Config, cat: Catalogue, id: string, at: set<Place>, seen: seq<nat>,
                            hosts: set<string>) {
    |seen| == |at| && (forall p :: p in at ==> HostAt(cfg, cat, id, p)) &&
    (forall x :: x in seen <==> exists p :: p in at && CtxAt(cat, p) == x) &&
    (forall h :: h in hosts <==> exists p :: p in at && p.pid == h)
  }

  function CtxAt(cat: Catalogue, p: Place): nat {
    if p.pid in cat && p.n < |cat[p.pid]| then cat[p.pid][p.n].ctx else 0
  }

  lemma SeeOne(cfg: Config, cat: Catalogue, id: string, at: set<Place>, seen: seq<nat>, hosts: set<string>, p: Place)
    requires HostsSeen(cfg, cat, id, at, seen, hosts) && HostAt(cfg, cat, id, p) && p !in at
    ensures HostsSeen(cfg, cat, id, at + {p}, seen + [CtxAt(cat, p)], hosts + {p.pid})
  {
    hide HostAt, CtxAt;
    assert (seen + [CtxAt(cat, p)])[|seen|] == CtxAt(cat, p);
  }

  lemma CountOne(cfg: Config, cat: Catalogue, id: string, front: set<string>, pid: string, j: nat,
                 at: set<Place>, seen: seq<nat>, hosts: set<string>)
    requires HostsSeen(cfg, cat, id, at, seen, hosts) && Places(cfg, cat, id, front, pid, j, at)
    requires pid !in front && pid in cat && j < |cat[pid]|
    ensures if IsHost(cfg, id, (pid, cat[pid][j]))
            then HostsSeen(cfg, cat, id, at + {Place(pid, j)}, seen + [cat[pid][j].ctx], hosts + {pid}) &&
                 Places(cfg, cat, id, front, pid, j + 1, at + {Place(pid, j)})
            else Places(cfg, cat, id, front, pid, j + 1, at)
  {
    hide IsHost, HostsSeen, Places;
    PlaceOne(cfg, cat, id, front, pid, j, at);
    if IsHost(cfg, id, (pid, cat[pid][j])) {
      SeeOne(cfg, cat, id, at, seen, hosts, Place(pid, j));
    }
  }

  /** `host_spread`: `None` exactly when fewer than two rows serve the id; then no two rows differ either. */
  method HostSpread(cfg: Config, cat: Catalogue, id: string) returns (r: Option<Spread>)
    ensures r.None? <==> forall a, b :: HostAt(cfg, cat, id, a) && HostAt(cfg, cat, id, b) ==> a == b
    ensures r.Some? ==> Spans(cfg, cat, id, r.value)
    ensures r.None? ==> forall a, b :: HostRow(cfg, cat, id, a) && HostRow(cfg, cat, id, b) ==> a.1.ctx == b.1.ctx
  {
    hide HostsSeen, MinOf, MaxOf, Places, Spans, HostRow, HostAt;
    var pids := Elements(cat.Keys);
    var seen, hosts: set<string> := [], {};
    ghost var front: set<string>, at: set<Place> := {}, {};
    NoHostSeen(cfg, cat, id);
    for i := 0 to |pids|
      invariant HostsSeen(cfg, cat, id, at, seen, hosts) && Places(cfg, cat, id, front, "", 0, at)
      invariant forall p :: p in front <==> p in pids[..i]
    {
      var pid := pids[i];
      var rows := cat[pid];
      PlacesStart(cfg, cat, id, front, "", pid, at);
      for j := 0 to |rows|
        invariant HostsSeen(cfg, cat, id, at, seen, hosts) && Places(cfg, cat, id, front, pid, j, at)
      {
        var row := rows[j];
        CountOne(cfg, cat, id, front, pid, j, at, seen, hosts);
        if cfg.canonical(row.id) != id || row.ctx == 0 {
          continue;
        }
        seen := seen + [row.ctx];
        hosts := hosts + {pid};
        at := at + {Place(pid, j)};
      }
      PlacesTurn(cfg, cat, id, front, pid, "", at);
      front := front + {pid};
    }
    assert front == cat.Keys;
    SeenSpans(cfg, cat, id, at, seen, hosts);
    r := if |seen| < 2 then None else Some(Spread(MinOf(seen), MaxOf(seen), hosts));
  }

  lemma NoHostSeen(cfg: Config, cat: Catalogue, id: string)
    ensures HostsSeen(cfg, cat, id, {}, [], {}) && Places(cfg, cat, id, {}, "", 0, {})
  {
  }

  lemma RowHasPlace(cfg: Config, cat: Catalogue, id: string, t: Tagged) returns (p: Place)
    requires HostRow(cfg, cat, id, t)
    ensures HostAt(cfg, cat, id, p) && p.pid == t.0 && CtxAt(cat, p) == t.1.ctx
  {
    var n :| 0 <= n < |cat[t.0]| && cat[t.0][n] == t.1;
    p := Place(t.0, n);
  }

  lemma PlaceHasRow(cfg: Config, cat: Catalogue, id: string, p: Place)
    requires HostAt(cfg, cat, id, p)
    ensures exists t :: HostRow(cfg, cat, id, t) && t.0 == p.pid && t.1.ctx == CtxAt(cat, p)
  {
    var t := (p.pid, cat[p.pid][p.n]);
    assert HostRow(cfg, cat, id, t) && t.0 == p.pid;
  }

  lemma SeenAll(cfg: Config, cat: Catalogue, id: string, at: set<Place>, seen: seq<nat>, hosts: set<string>)
    requires HostsSeen(cfg, cat, id, at, seen, hosts) && Places(cfg, cat, id, cat.Keys, "", 0, at)
    ensures forall x :: x in seen <==> exists t :: HostRow(cfg, cat, id, t) && t.1.ctx == x
    ensures forall h :: h in hosts <==> exists t :: HostRow(cfg, cat, id, t) && t.0 == h
  {
    AllPlaces(cfg, cat, id, at);
    hide HostRow, HostAt, CtxAt, Places;
    forall p | p in at
      ensures exists t :: HostRow(cfg, cat, id, t) && t.0 == p.pid && t.1.ctx == CtxAt(cat, p)
    {
      PlaceHasRow(cfg, cat, id, p);
    }
    forall t | HostRow(cfg, cat, id, t) ensures t.1.ctx in seen && t.0 in hosts {
      var p := RowHasPlace(cfg, cat, id, t);
    }
  }

  lemma AllPlaces(cfg: Config, cat: Catalogue, id: string, at: set<Place>)
    requires Places(cfg, cat, id, cat.Keys, "", 0, at)
    ensures forall p :: p in at <==> HostAt(cfg, cat, id, p)
  {
  }

  lemma SeenSpans(cfg: Config, cat: Catalogue, id: string, at: set<Place>, seen: seq<nat>, hosts: set<string>)
    requires HostsSeen(cfg, cat, id, at, seen, hosts) && Places(cfg, cat, id, cat.Keys, "", 0, at)
    ensures |seen| < 2 <==> forall a, b :: HostAt(cfg, cat, id, a) && HostAt(cfg, cat, id, b) ==> a == b
    ensures seen != [] ==> Spans(cfg, cat, id, Spread(MinOf(seen), MaxOf(seen), hosts))
    ensures |seen| < 2 ==> forall a, b :: HostRow(cfg, cat, id, a) && HostRow(cfg, cat, id, b) ==> a.1.ctx == b.1.ctx
  {
    FewPlaces(cfg, cat, id, at);
    assert |seen| == |at|;
    hide HostRow, HostsSeen, MinOf, MaxOf, Spans, HostAt, Places;
    SeenAll(cfg, cat, id, at, seen, hosts);
    if seen != [] {
      BoundsSpan(cfg, cat, id, seen, hosts);
    }
    forall a, b | |seen| < 2 && HostRow(cfg, cat, id, a) && HostRow(cfg, cat, id, b) ensures a.1.ctx == b.1.ctx {
      assert a.1.ctx in seen && b.1.ctx in seen;
    }
  }

  lemma BoundsSpan(cfg: Config, cat: Catalogue, id: string, seen: seq<nat>, hosts: set<string>)
    requires seen != []
    requires forall x :: x in seen <==> exists t :: HostRow(cfg, cat, id, t) && t.1.ctx == x
    requires forall h :: h in hosts <==> exists t :: HostRow(cfg, cat, id, t) && t.0 == h
    ensures Spans(cfg, cat, id, Spread(MinOf(seen), MaxOf(seen), hosts))
  {
    hide HostRow, MinOf, MaxOf;
    forall t | HostRow(cfg, cat, id, t) ensures t.1.ctx in seen {
    }
    assert MinOf(seen) in seen && MaxOf(seen) in seen;
  }

  // ---- grading ----

  /** An open-weights id whose hosts are apart by a factor of two or more. */
  ghost predicate WildlyServed(cfg: Config, cat: Catalogue, fam: Family, id: string) {
    fam.openWeights && exists a, b :: HostRow(cfg, cat, id, a) && HostRow(cfg, cat, id, b) && b.1.ctx >= 2 * a.1.ctx
  }

  function OverIf(cfg: Config, fam: Family, pin: Pin, hosts: set<string>): seq<Finding> {
    if pin.ours > pin.floor then [Over(fam.name, pin, hosts, pin in cfg.pins)] else []
  }

  /** Findings of a recorded arm: context too high, or below nine tenths of the floor; output too high. */
  function GradeArm(cfg: Config, fam: Family, id: string, arm: Arm, s: Summary): seq<Finding> {
    var pin := Pin(id, Context, arm.ctx, s.floor);
    (if arm.ctx > s.floor then OverIf(cfg, fam, pin, s.hosts)
     else if arm.ctx * 10 < s.floor * 9 then [Under(fam.name, pin, s.hosts, pin in cfg.pins)] else []) +
    (if s.out.Some? then OverIf(cfg, fam, Pin(id, Output, arm.out, s.out.value), s.hosts) else [])
  }

  /** `f` is a finding about `id` of `fam`. */
  ghost predicate FindingFor(cfg: Config, cat: Catalogue, arms: Arms, fam: Family, id: string, f: Finding) {
    exists s :: Sums(cfg, cat, fam, id, s) &&
      if arms(id).Some? then f in GradeArm(cfg, fam, id, arms(id).value, s)
      else if WildlyServed(cfg, cat, fam, id) then
        exists w :: Spans(cfg, cat, id, w) && f == HostVariable(fam.name, id, w.low, w.high, w.hosts)
      else f == NoArm(fam.name, id, s.floor, s.out, s.hosts)
  }

  ghost predicate IsFinding(cfg: Config, cat: Catalogue, arms: Arms, fams: seq<Family>, f: Finding) {
    exists fam, id :: fam in fams && FindingFor(cfg, cat, arms, fam, id, f)
  }

  /** The rows of the table, a later row for an id replacing an earlier one. */
  function TableOf(rows: seq<(string, Arm)>): map<string, Arm> {
    if rows == [] then map[] else TableOf(rows[..|rows| - 1])[rows[|rows| - 1].0 := rows[|rows| - 1].1]
  }

  lemma WildIsSpread(cfg: Config, cat: Catalogue, fam: Family, id: string, r: Option<Spread>)
    requires fam.openWeights
    requires r.Some? ==> Spans(cfg, cat, id, r.value)
    requires r.None? ==> forall a, b :: HostRow(cfg, cat, id, a) && HostRow(cfg, cat, id, b) ==> a.1.ctx == b.1.ctx
    ensures WildlyServed(cfg, cat, fam, id) <==> r.Some? && r.value.high >= 2 * r.value.low
  {
    assert forall t :: HostRow(cfg, cat, id, t) ==> t.1.ctx > 0;
    hide HostRow;
  }

  /** The body of the loop over observed ids. */
  method GradeOne(cfg: Config, cat: Catalogue, arms: Arms, fam: Family, id: string, s: Summary)
    returns (out: seq<Finding>)
    requires Sums(cfg, cat, fam, id, s)
    ensures forall f :: f in out <==> FindingFor(cfg, cat, arms, fam, id, f)
  {
    hide Sums, Spans, HostRow, GradeArm;
    forall other | Sums(cfg, cat, fam, id, other) ensures other == s {
      SumsUnique(cfg, cat, fam, id, s, other);
    }
    var arm := arms(id);
    if arm.None? {
      var spread: Option<Spread> := None;
      if fam.openWeights {
        spread := HostSpread(cfg, cat, id);
        WildIsSpread(cfg, cat, fam, id, spread);
        if spread.Some? {
          forall other | Spans(cfg, cat, id, other) ensures other == spread.value {
            SpansUnique(cfg, cat, id, spread.value, other);
          }
        }
      }
      if spread.Some? && spread.value.high >= 2 * spread.value.low {
        out := [HostVariable(fam.name, id, spread.value.low, spread.value.high, spread.value.hosts)];
      } else {
        out := [NoArm(fam.name, id, s.floor, s.out, s.hosts)];
      }
    } else {
      out := GradeArm(cfg, fam, id, arm.value, s);
    }
  }

  method GradeFamily(cfg: Config, cat: Catalogue, arms: Arms, fam: Family) returns (out: seq<Finding>)
    ensures forall f :: f in out <==> exists id :: FindingFor(cfg, cat, arms, fam, id, f)
  {
    hide Observed, FindingFor, RowsServed, SummaryOf, Sums, Sort;
    var obs := Observe(cfg, cat, fam);
    var ids := Elements(obs.Keys);
    SortHolds(ids);
    ids := Sort(ids);
    out := [];
    for i := 0 to |ids|
      invariant forall f :: f in out <==> exists j :: 0 <= j < i && FindingFor(cfg, cat, arms, fam, ids[j], f)
    {
      var id := ids[i];
      ObservedSums(cfg, cat, fam, obs, id);
      var more := GradeOne(cfg, cat, arms, fam, id, SummaryOf(obs[id]));
      out := out + more;
    }
    forall id, f | FindingFor(cfg, cat, arms, fam, id, f) ensures id in ids {
      FoundIsObserved(cfg, cat, arms, fam, obs, id, f);
    }
  }

  lemma FoundIsObserved(cfg: Config, cat: Catalogue, arms: Arms, fam: Family,
                        obs: map<string, Obs>, id: string, f: Finding)
    requires Observed(cfg, fam, RowsServed(cat, fam.providers), obs)
    requires FindingFor(cfg, cat, arms, fam, id, f)
    ensures id in obs
  {
    hide GradeArm, Gathers;
    var t :| VendorRow(cfg, cat, fam, id, t);
    var done := RowsServed(cat, fam.providers);
    RowsServedAll(cat, fam.providers, done);
    assert t in done && Counts(cfg, fam, id, t);
  }

  /** All families, one after the other. */
  method GradeAll(cfg: Config, cat: Catalogue, fams: seq<Family>, arms: Arms) returns (out: seq<Finding>)
    ensures forall f :: f in out <==> IsFinding(cfg, cat, arms, fams, f)
  {
    hide FindingFor;
    out := [];
    for i := 0 to |fams|
      invariant forall f :: f in out <==>
                  exists j, id :: 0 <= j < i && FindingFor(cfg, cat, arms, fams[j], id, f)
    {
      var more := GradeFamily(cfg, cat, arms, fams[i]);
      out := out + more;
    }
  }

  /** Rows are looked up by their exact id. */
  function ByTable(rows: seq<(string, Arm)>): Arms {
    var table := TableOf(rows);
    id => if id in table then Some(table[id]) else None
  }

  method ScanPassthrough(cfg: Config, cat: Catalogue, fams: seq<Family>, rows: seq<(string, Arm)>)
    returns (out: seq<Finding>)
    ensures forall f :: f in out <==> IsFinding(cfg, cat, ByTable(rows), fams, f)
  {
    out := GradeAll(cfg, cat, fams, ByTable(rows));
  }

  /** `lookup`: the first entry whose fragment occurs in the id. */
  function Lookup(entries: seq<(string, Arm)>, id: string): (r: Option<Arm>)
    ensures r.None? ==> forall k :: 0 <= k < |entries| ==> !Occurs(entries[k].0, id)
    ensures r.Some? ==> exists k :: 0 <= k < |entries| && Occurs(entries[k].0, id) && r.value == entries[k].1 &&
                          forall j :: 0 <= j < k ==> !Occurs(entries[j].0, id)
  {
    if entries == [] then None
    else if Occurs(entries[0].0, id) then Some(entries[0].1)
    else
      assert forall k :: 0 < k < |entries| ==> entries[k] == entries[1..][k - 1];
      Lookup(entries[1..], id)
  }

  predicate Occurs(fragment: string, id: string) {
    fragment == "" || Find(id, fragment) < |id|
  }

  /** The first-party scan: arms by fragment; nothing pinned, no family exempt. */
  method ScanFirstParty(cfg: Config, cat: Catalogue, fams: seq<Family>, entries: seq<(string, Arm)>)
    returns (out: seq<Finding>)
    requires cfg.pins == {} && forall fam :: fam in fams ==> !fam.openWeights
    ensures forall f :: f in out <==> IsFinding(cfg, cat, id => Lookup(entries, id), fams, f)
  {
    out := GradeAll(cfg, cat, fams, id => Lookup(entries, id));
  }
}
