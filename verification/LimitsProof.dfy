/** What a limits gate without a failure guarantees, row by row
    (scripts/check-model-limits-freshness.py). */
module LimitsProof {
  import opened Common
  import opened LimitsGate

  ghost predicate NoFail(cfg: Config, cat: Catalogue, arms: Arms, fams: seq<Family>) {
    forall f :: IsFinding(cfg, cat, arms, fams, f) ==> !Fails(f)
  }

  predicate Pinned(cfg: Config, id: string, dim: Dimension, ours: nat, floor: nat) {
    Pin(id, dim, ours, floor) in cfg.pins
  }

  /** What is asked of an id, given what its vendor rows come to. */
  ghost predicate Acceptable(cfg: Config, cat: Catalogue, arms: Arms, fam: Family, id: string, s: Summary) {
    match arms(id)
    case None => WildlyServed(cfg, cat, fam, id)
    case Some(arm) =>
      (Pinned(cfg, id, Context, arm.ctx, s.floor) || (arm.ctx <= s.floor && arm.ctx * 10 >= s.floor * 9)) &&
      (s.out.Some? ==> Pinned(cfg, id, Output, arm.out, s.out.value) || arm.out <= s.out.value)
  }

  lemma GradeArmFails(cfg: Config, fam: Family, id: string, arm: Arm, s: Summary)
    ensures (exists f :: f in GradeArm(cfg, fam, id, arm, s) && Fails(f)) <==>
              !((Pinned(cfg, id, Context, arm.ctx, s.floor) || (arm.ctx <= s.floor && arm.ctx * 10 >= s.floor * 9)) &&
                (s.out.Some? ==> Pinned(cfg, id, Output, arm.out, s.out.value) || arm.out <= s.out.value))
  {
    var fs := GradeArm(cfg, fam, id, arm, s);
    var pin := Pin(id, Context, arm.ctx, s.floor);
    if arm.ctx > s.floor {
      assert fs[0] == Over(fam.name, pin, s.hosts, pin in cfg.pins) && fs[0] in fs;
    } else if arm.ctx * 10 < s.floor * 9 {
      assert fs[0] == Under(fam.name, pin, s.hosts, pin in cfg.pins) && fs[0] in fs;
    }
    if s.out.Some? && arm.out > s.out.value {
      var last := fs[|fs| - 1];
      assert last == Over(fam.name, Pin(id, Output, arm.out, s.out.value), s.hosts,
                          Pin(id, Output, arm.out, s.out.value) in cfg.pins) && last in fs;
    }
  }

  lemma NoFailForId(cfg: Config, cat: Catalogue, arms: Arms, fam: Family, id: string, s: Summary)
    requires Sums(cfg, cat, fam, id, s)
    ensures (exists f :: FindingFor(cfg, cat, arms, fam, id, f) && Fails(f)) <==>
              !Acceptable(cfg, cat, arms, fam, id, s)
  {
    hide Sums, GradeArm, WildlyServed, Spans, Fails;
    forall other | Sums(cfg, cat, fam, id, other) ensures other == s {
      SumsUnique(cfg, cat, fam, id, s, other);
    }
    NoArmFails(fam.name, id, s);
    if arms(id).Some? {
      GradeArmFails(cfg, fam, id, arms(id).value, s);
      forall f ensures FindingFor(cfg, cat, arms, fam, id, f) <==> f in GradeArm(cfg, fam, id, arms(id).value, s) {
      }
    } else if WildlyServed(cfg, cat, fam, id) {
      forall f | FindingFor(cfg, cat, arms, fam, id, f) ensures !Fails(f) {
        HostVariablePasses(f);
      }
    } else {
      assert FindingFor(cfg, cat, arms, fam, id, NoArm(fam.name, id, s.floor, s.out, s.hosts));
    }
  }

  lemma NoArmFails(name: string, id: string, s: Summary)
    ensures Fails(NoArm(name, id, s.floor, s.out, s.hosts))
  {
  }

  lemma HostVariablePasses(f: Finding)
    requires f.HostVariable?
    ensures !Fails(f)
  {
  }

  /** No finding fails exactly when every observed id is acceptable. */
  lemma NoFailIff(cfg: Config, cat: Catalogue, arms: Arms, fams: seq<Family>)
    ensures NoFail(cfg, cat, arms, fams) <==>
              forall fam, id, s :: fam in fams && Sums(cfg, cat, fam, id, s) ==> Acceptable(cfg, cat, arms, fam, id, s)
  {
    hide Sums, Fails, Acceptable;
    if NoFail(cfg, cat, arms, fams) {
      forall fam, id, s | fam in fams && Sums(cfg, cat, fam, id, s) ensures Acceptable(cfg, cat, arms, fam, id, s) {
        forall f | FindingFor(cfg, cat, arms, fam, id, f) ensures !Fails(f) {
          assert IsFinding(cfg, cat, arms, fams, f);
        }
        NoFailForId(cfg, cat, arms, fam, id, s);
      }
    } else {
      var f :| IsFinding(cfg, cat, arms, fams, f) && Fails(f);
      var fam, id :| fam in fams && FindingFor(cfg, cat, arms, fam, id, f);
      var s :| Sums(cfg, cat, fam, id, s);
      NoFailForId(cfg, cat, arms, fam, id, s);
    }
  }

  // ---- every vendor row has a summary ----

  lemma {:induction false} LeastContext(rows: set<Tagged>) returns (t: Tagged)
    requires rows != {}
    ensures t in rows && forall u :: u in rows ==> t.1.ctx <= u.1.ctx
    decreases rows
  {
    t :| t in rows;
    if rows != {t} {
      var u := LeastContext(rows - {t});
      if u.1.ctx < t.1.ctx {
        t := u;
      }
    }
  }

  lemma {:induction false} LeastOutput(rows: set<Tagged>) returns (t: Tagged)
    requires rows != {}
    ensures t in rows && forall u :: u in rows ==> t.1.out <= u.1.out
    decreases rows
  {
    t :| t in rows;
    if rows != {t} {
      var u := LeastOutput(rows - {t});
      if u.1.out < t.1.out {
        t := u;
      }
    }
  }

  lemma HasSummary(cfg: Config, cat: Catalogue, fam: Family, id: string, t: Tagged) returns (s: Summary)
    requires VendorRow(cfg, cat, fam, id, t)
    ensures Sums(cfg, cat, fam, id, s)
  {
    var all: set<Tagged> := set pid, r | pid in fam.providers && pid in cat && r in cat[pid] :: (pid, r);
    var rows := set u | u in all && VendorRow(cfg, cat, fam, id, u);
    forall u | VendorRow(cfg, cat, fam, id, u) ensures u in rows {
      assert u == (u.0, u.1);
    }
    hide VendorRow, KnownOut;
    assert t in rows;
    var least := LeastContext(rows);
    var known := set u | u in rows && KnownOut(u.1);
    var out := None;
    if known != {} {
      var lowest := LeastOutput(known);
      out := Some(lowest.1.out);
    } else {
      forall u | VendorRow(cfg, cat, fam, id, u) ensures !KnownOut(u.1) {
        assert u !in known;
      }
    }
    s := Summary(least.1.ctx, out, set u | u in rows :: u.0);
    forall u | VendorRow(cfg, cat, fam, id, u) && KnownOut(u.1) ensures out.Some? && out.value <= u.1.out {
      assert u in known;
    }
  }

  /** Without a failure, every vendor row that counts is either of an open-weights id whose
      hosts are apart by a factor of two, or is covered by an arm that - unless pinned on exactly
      these numbers - claims no more than the row serves and at least nine tenths of the vendor floor. */
  lemma RowsAreCovered(cfg: Config, cat: Catalogue, arms: Arms, fams: seq<Family>, fam: Family, id: string, t: Tagged)
    returns (s: Summary)
    requires NoFail(cfg, cat, arms, fams) && fam in fams && VendorRow(cfg, cat, fam, id, t)
    ensures Sums(cfg, cat, fam, id, s)
    ensures arms(id).None? ==> WildlyServed(cfg, cat, fam, id)
    ensures arms(id).Some? ==>
              var arm := arms(id).value;
              Pinned(cfg, id, Context, arm.ctx, s.floor) || (arm.ctx <= t.1.ctx && arm.ctx * 10 >= s.floor * 9)
    ensures arms(id).Some? && KnownOut(t.1) ==>
              s.out.Some? && (Pinned(cfg, id, Output, arms(id).value.out, s.out.value) || arms(id).value.out <= t.1.out)
  {
    s := HasSummary(cfg, cat, fam, id, t);
    NoFailIff(cfg, cat, arms, fams);
    hide VendorRow, WildlyServed, NoFail, KnownOut;
    assert Acceptable(cfg, cat, arms, fam, id, s);
  }

  /** A row that counts, spelled out: of a provider of the family, for an id in scope, with a context. */
  ghost predicate Counted(cfg: Config, cat: Catalogue, fam: Family, id: string, pid: string, r: Row) {
    pid in fam.providers && pid in cat && r in cat[pid] && cfg.canonical(r.id) == id && r.ctx != 0 &&
    cfg.inScope(fam.name, id)
  }

  /** A row for the id at any host of the catalogue. */
  ghost predicate Served(cfg: Config, cat: Catalogue, id: string, pid: string, r: Row) {
    pid in cat && r in cat[pid] && cfg.canonical(r.id) == id && r.ctx != 0
  }

  /** Two rows for the id, of whatever hosts, the one with at least twice the context of the other. */
  ghost predicate FarApart(cfg: Config, cat: Catalogue, id: string) {
    exists p, q, a, b :: Served(cfg, cat, id, p, a) && Served(cfg, cat, id, q, b) && b.ctx >= 2 * a.ctx
  }

  /** The same guarantee on rows as the catalogue has them: `floor` is the least context that counts and `known`
      the least output among those that do not repeat the context. */
  lemma RowsAreCoveredRaw(cfg: Config, cat: Catalogue, arms: Arms, fams: seq<Family>, fam: Family, id: string,
                          pid: string, r: Row)
    returns (floor: nat, known: nat)
    requires NoFail(cfg, cat, arms, fams) && fam in fams && Counted(cfg, cat, fam, id, pid, r)
    ensures exists p, q :: Counted(cfg, cat, fam, id, p, q) && q.ctx == floor
    ensures forall p, q :: Counted(cfg, cat, fam, id, p, q) ==> floor <= q.ctx
    ensures arms(id).None? ==> fam.openWeights && FarApart(cfg, cat, id)
    ensures arms(id).Some? ==>
              var arm := arms(id).value;
              Pin(id, Context, arm.ctx, floor) in cfg.pins || (arm.ctx <= r.ctx && arm.ctx * 10 >= floor * 9)
    ensures r.out != 0 && r.out != r.ctx ==>
              (exists p, q :: Counted(cfg, cat, fam, id, p, q) && q.out != 0 && q.out != q.ctx && q.out == known) &&
              (forall p, q :: Counted(cfg, cat, fam, id, p, q) && q.out != 0 && q.out != q.ctx ==> known <= q.out) &&
              (arms(id).Some? ==>
                 Pin(id, Output, arms(id).value.out, known) in cfg.pins || arms(id).value.out <= r.out)
  {
    forall p, q ensures Counted(cfg, cat, fam, id, p, q) <==> VendorRow(cfg, cat, fam, id, (p, q)) {
    }
    var t: Tagged := (pid, r);
    var s := RowsAreCovered(cfg, cat, arms, fams, fam, id, t);
    floor := s.floor;
    known := if s.out.Some? then s.out.value else 0;
    if arms(id).None? {
      WildIsFarApart(cfg, cat, fam, id);
    }
    hide VendorRow, Counted, WildlyServed, FarApart, NoFail;
    SummaryRaw(cfg, cat, fam, id, s);
  }

  lemma WildIsFarApart(cfg: Config, cat: Catalogue, fam: Family, id: string)
    ensures WildlyServed(cfg, cat, fam, id) <==> fam.openWeights && FarApart(cfg, cat, id)
  {
    forall t ensures HostRow(cfg, cat, id, t) <==> Served(cfg, cat, id, t.0, t.1) {
    }
    hide HostRow, Served;
    if fam.openWeights && FarApart(cfg, cat, id) {
      var p, q, a, b :| Served(cfg, cat, id, p, a) && Served(cfg, cat, id, q, b) && b.ctx >= 2 * a.ctx;
      var x: Tagged, y: Tagged := (p, a), (q, b);
      assert HostRow(cfg, cat, id, x) && HostRow(cfg, cat, id, y);
    }
  }

  lemma SummaryRaw(cfg: Config, cat: Catalogue, fam: Family, id: string, s: Summary)
    requires Sums(cfg, cat, fam, id, s)
    requires forall p, q :: Counted(cfg, cat, fam, id, p, q) <==> VendorRow(cfg, cat, fam, id, (p, q))
    ensures exists p, q :: Counted(cfg, cat, fam, id, p, q) && q.ctx == s.floor
    ensures forall p, q :: Counted(cfg, cat, fam, id, p, q) ==> s.floor <= q.ctx
    ensures s.out.Some? ==>
              exists p, q :: Counted(cfg, cat, fam, id, p, q) && q.out != 0 && q.out != q.ctx && q.out == s.out.value
    ensures forall p, q :: Counted(cfg, cat, fam, id, p, q) && q.out != 0 && q.out != q.ctx ==>
              s.out.Some? && s.out.value <= q.out
  {
    hide VendorRow, Counted;
    var t :| VendorRow(cfg, cat, fam, id, t) && t.1.ctx == s.floor;
    assert Counted(cfg, cat, fam, id, t.0, t.1);
    if s.out.Some? {
      var u :| VendorRow(cfg, cat, fam, id, u) && KnownOut(u.1) && u.1.out == s.out.value;
      assert Counted(cfg, cat, fam, id, u.0, u.1);
    }
    forall p, q | Counted(cfg, cat, fam, id, p, q)
      ensures s.floor <= q.ctx && (q.out != 0 && q.out != q.ctx ==> s.out.Some? && s.out.value <= q.out)
    {
      var v: Tagged := (p, q);
      assert VendorRow(cfg, cat, fam, id, v);
    }
  }

  // ---- order ----

  /** The same rows per provider, in whatever order. */
  ghost predicate SameRows(a: Catalogue, b: Catalogue) {
    a.Keys == b.Keys && forall pid, r :: pid in a ==> (r in a[pid] <==> r in b[pid])
  }

  lemma SameRowsSame(cfg: Config, a: Catalogue, b: Catalogue, fam: Family, id: string, s: Summary)
    requires SameRows(a, b)
    ensures Sums(cfg, a, fam, id, s) <==> Sums(cfg, b, fam, id, s)
    ensures WildlyServed(cfg, a, fam, id) <==> WildlyServed(cfg, b, fam, id)
    ensures forall w :: Spans(cfg, a, id, w) <==> Spans(cfg, b, id, w)
  {
    assert forall t :: HostRow(cfg, a, id, t) <==> HostRow(cfg, b, id, t);
    assert forall t :: VendorRow(cfg, a, fam, id, t) <==> VendorRow(cfg, b, fam, id, t);
    hide HostRow, VendorRow, KnownOut, SameRows;
  }

  /** The set of findings does not depend on the order of rows. */
  lemma RowOrderIrrelevant(cfg: Config, a: Catalogue, b: Catalogue, arms: Arms, fams: seq<Family>, f: Finding)
    requires SameRows(a, b)
    ensures IsFinding(cfg, a, arms, fams, f) <==> IsFinding(cfg, b, arms, fams, f)
  {
    hide Sums, WildlyServed, Spans, GradeArm;
    forall fam, id, s
      ensures Sums(cfg, a, fam, id, s) <==> Sums(cfg, b, fam, id, s)
      ensures WildlyServed(cfg, a, fam, id) <==> WildlyServed(cfg, b, fam, id)
      ensures forall w :: Spans(cfg, a, id, w) <==> Spans(cfg, b, id, w)
    {
      SameRowsSame(cfg, a, b, fam, id, s);
    }
    forall fam, id ensures FindingFor(cfg, a, arms, fam, id, f) <==> FindingFor(cfg, b, arms, fam, id, f) {
    }
    hide FindingFor;
  }

  /** Rows of one id record one arm. */
  ghost predicate OneArmEach(rows: seq<(string, Arm)>) {
    forall x, y :: x in rows && y in rows && x.0 == y.0 ==> x == y
  }

  lemma {:induction false} TableHolds(rows: seq<(string, Arm)>, id: string, arm: Arm)
    requires OneArmEach(rows)
    ensures (id, arm) in rows <==> id in TableOf(rows) && TableOf(rows)[id] == arm
  {
    if rows != [] {
      var n := |rows| - 1;
      assert rows == rows[..n] + [rows[n]];
      TableHolds(rows[..n], id, arm);
      if id == rows[n].0 && (id, arm) in rows {
        assert (id, arm) == rows[n];
      }
    }
  }

  lemma TableWithin(a: seq<(string, Arm)>, b: seq<(string, Arm)>)
    requires OneArmEach(a) && OneArmEach(b) && forall x :: x in a ==> x in b
    ensures forall id :: id in TableOf(a) ==> id in TableOf(b) && TableOf(b)[id] == TableOf(a)[id]
  {
    hide TableOf;
    forall id | id in TableOf(a) ensures id in TableOf(b) && TableOf(b)[id] == TableOf(a)[id] {
      var arm := TableOf(a)[id];
      TableHolds(a, id, arm);
      TableHolds(b, id, arm);
    }
  }

  lemma SameRowsSameTable(a: seq<(string, Arm)>, b: seq<(string, Arm)>)
    requires OneArmEach(a) && multiset(a) == multiset(b)
    ensures TableOf(a) == TableOf(b)
  {
    forall x ensures x in a <==> x in b {
      assert x in multiset(a) <==> x in multiset(b);
    }
    hide TableOf;
    TableWithin(a, b);
    TableWithin(b, a);
  }

  /** The rows with row `k` moved to the end. */
  function MovedLast(rows: seq<(string, Arm)>, k: nat): seq<(string, Arm)>
    requires k < |rows|
  {
    rows[..k] + rows[k + 1..] + [rows[k]]
  }

  lemma LastCounts(rows: seq<(string, Arm)>, k: nat)
    requires k < |rows|
    ensures multiset(MovedLast(rows, k)) == multiset(rows)
    ensures var t := TableOf(MovedLast(rows, k)); rows[k].0 in t && t[rows[k].0] == rows[k].1
  {
    assert rows == rows[..k] + [rows[k]] + rows[k + 1..];
  }

  /** The recorded rows may stand in any order exactly when rows of one id record one arm. */
  lemma TableOrderIrrelevant(a: seq<(string, Arm)>)
    ensures OneArmEach(a) <==> forall b :: multiset(a) == multiset(b) ==> TableOf(a) == TableOf(b)
  {
    if OneArmEach(a) {
      forall b | multiset(a) == multiset(b) ensures TableOf(a) == TableOf(b) {
        SameRowsSameTable(a, b);
      }
    } else {
      var x, y :| x in a && y in a && x.0 == y.0 && x != y;
      var i :| 0 <= i < |a| && a[i] == x;
      var j :| 0 <= j < |a| && a[j] == y;
      LastCounts(a, i);
      LastCounts(a, j);
      hide TableOf, MovedLast;
      assert TableOf(MovedLast(a, i)) != TableOf(MovedLast(a, j));
    }
  }

  /** Of two rows for one id the later one counts. */
  lemma RepeatedRowOverrides(id: string, a: Arm, b: Arm)
    ensures TableOf([(id, a), (id, b)]) == map[id := b] && TableOf([(id, b), (id, a)]) == map[id := a]
  {
    var x, y := [(id, a), (id, b)], [(id, b), (id, a)];
    assert x[..1] == [(id, a)] && y[..1] == [(id, b)];
    assert [(id, a)][..0] == [] && [(id, b)][..0] == [];
    assert TableOf([(id, a)]) == map[id := a] && TableOf([(id, b)]) == map[id := b];
  }
}
