/** What the frame codec guarantees: round trip, torn tails, corruption isolation
    (scripts/f23-h1-legacy-journal.py, scripts/f23-journal-forensics.py). */
module JournalCodec {
  import opened Common
  import opened JournalFrames

  function Written(h: Hash, body: Bytes): Rec {
    Rec(FRAME_MAGIC, body, HashOf(h, body), true)
  }

  function WrittenAll(h: Hash, bodies: seq<Bytes>): (rs: seq<Rec>)
    ensures |rs| == |bodies|
  {
    seq(|bodies|, k requires 0 <= k < |bodies| => Written(h, bodies[k]))
  }

  ghost predicate Writable(bodies: seq<Bytes>) {
    forall k :: 0 <= k < |bodies| ==> |bodies[k]| < U32
  }

  /** The file: one frame after the other, `None` once a body is refused. */
  function Journal(h: Hash, bodies: seq<Bytes>): Option<Bytes> {
    if bodies == [] then Some([])
    else
      match (Frame(h, bodies[0]), Journal(h, bodies[1..]))
      case (Some(f), Some(rest)) => Some(f + rest)
      case _ => None
  }

  lemma WrittenFit(h: Hash, bodies: seq<Bytes>)
    requires Writable(bodies)
    ensures AllFit(WrittenAll(h, bodies))
  {
  }

  lemma {:induction false} JournalSpelled(h: Hash, bodies: seq<Bytes>)
    requires Writable(bodies)
    ensures AllFit(WrittenAll(h, bodies)) && Journal(h, bodies) == Some(SpellAll(WrittenAll(h, bodies)))
  {
    hide Header;
    WrittenFit(h, bodies);
    if bodies != [] {
      JournalSpelled(h, bodies[1..]);
      assert WrittenAll(h, bodies)[1..] == WrittenAll(h, bodies[1..]);
    }
  }

  /** Reading back any list of framed bodies yields those bodies, all with a good digest. */
  lemma RoundTrip(h: Hash, bodies: seq<Bytes>)
    requires Writable(bodies)
    ensures Journal(h, bodies).Some?
    ensures Parse(h, Journal(h, bodies).value) == Parsed(WrittenAll(h, bodies), Clean)
  {
    hide Parse, Header;
    JournalSpelled(h, bodies);
    var rs := WrittenAll(h, bodies);
    SpelledThen(h, rs, []);
    ParseNothing(h);
    assert SpellAll(rs) + [] == SpellAll(rs);
    assert JudgedAll(h, rs) + [] == rs;
  }

  // ---- torn tails ----

  lemma HeaderPrefix(r: Rec, k: nat)
    requires Fits(r) && HEADER <= k <= |Spell(r)|
    ensures var raw := Spell(r)[..k]; GoodHeader(raw) && BodyLen(raw) == |r.body|
  {
    var s := Spell(r);
    HeaderRead(r, []);
    assert s + [] == s;
    assert s[..k][..4] == s[..4] && s[..k][4..8] == s[4..8] && s[..k][8..12] == s[8..12];
  }

  /** Less than one frame: nothing is read, and nothing is refused. */
  lemma PartialFrame(h: Hash, r: Rec, k: nat)
    requires Fits(r) && k < |Spell(r)|
    ensures Parse(h, Spell(r)[..k]) == Parsed([], if k == 0 then Clean else Torn)
  {
    hide Parse, Header, GoodHeader, BodyLen, Spell;
    if k == 0 {
      ParseNothing(h);
      assert Spell(r)[..0] == [];
    } else {
      ParseTurn(h, Spell(r)[..k]);
      if k >= HEADER {
        HeaderPrefix(r, k);
      }
    }
  }

  /** The first `k` bytes are read as the first `m` records; the stop is clean just at a boundary. */
  ghost predicate ReadsPrefix(h: Hash, rs: seq<Rec>, k: nat, m: nat)
    requires AllFit(rs)
  {
    k <= |SpellAll(rs)| && m <= |rs| &&
    Parse(h, SpellAll(rs)[..k]) ==
    Parsed(JudgedAll(h, rs[..m]), if k == |SpellAll(rs[..m])| then Clean else Torn)
  }

  /** `m` of the records lie wholly inside the first `k` bytes. */
  ghost predicate WhollyInside(rs: seq<Rec>, k: nat, m: nat)
    requires AllFit(rs)
  {
    m <= |rs| && |SpellAll(rs[..m])| <= k && (m < |rs| ==> k < |SpellAll(rs[..m + 1])|)
  }

  /** Any prefix yields exactly the frames wholly inside it, and never refuses. */
  lemma {:induction false} TornTail(h: Hash, rs: seq<Rec>, k: nat) returns (m: nat)
    requires AllFit(rs) && k <= |SpellAll(rs)|
    ensures WhollyInside(rs, k, m) && ReadsPrefix(h, rs, k, m)
  {
    hide Parse, Fits, Spell, WhollyInside, JudgedAll, SpellAll, ReadsPrefix;
    if rs == [] {
      m := 0;
      TornNothing(h);
    } else {
      var r, rest := rs[0], rs[1..];
      var n := |Spell(r)|;
      if k < n {
        m := 0;
        TornFirst(h, rs, k);
      } else {
        SpellUnfolds(rs);
        var j := TornTail(h, rest, k - n);
        m := j + 1;
        TornLater(h, rs, k, j);
      }
    }
  }

  lemma SpellUnfolds(rs: seq<Rec>)
    requires AllFit(rs) && rs != []
    ensures AllFit(rs[1..]) && SpellAll(rs) == Spell(rs[0]) + SpellAll(rs[1..])
  {
    hide Fits, Spell;
  }

  lemma TornLater(h: Hash, rs: seq<Rec>, k: nat, j: nat)
    requires AllFit(rs) && rs != [] && AllFit(rs[1..]) && k >= |Spell(rs[0])|
    requires WhollyInside(rs[1..], k - |Spell(rs[0])|, j) && ReadsPrefix(h, rs[1..], k - |Spell(rs[0])|, j)
    ensures WhollyInside(rs, k, j + 1) && ReadsPrefix(h, rs, k, j + 1)
  {
    hide Parse, Fits, Spell, WhollyInside, JudgedAll, SpellAll;
    var r, rest := rs[0], rs[1..];
    var n := |Spell(r)|;
    SpellUnfolds(rs);
    SliceBehind(Spell(r), SpellAll(rest), k);
    SpelledRead(h, r, SpellAll(rest)[..k - n]);
    InsideCons(rs, k, j + 1);
    InsideFits(rs, k, j + 1);
    SpellCons(rs, j + 1);
    JudgedCons(h, rs, j + 1);
  }

  lemma InsideFits(rs: seq<Rec>, k: nat, m: nat)
    requires AllFit(rs) && WhollyInside(rs, k, m)
    ensures m <= |rs|
  {
  }

  lemma TornNothing(h: Hash)
    ensures WhollyInside([], 0, 0) && ReadsPrefix(h, [], 0, 0) && SpellAll([]) == []
  {
    hide Fits;
  }

  lemma SliceBehind(a: Bytes, b: Bytes, k: nat)
    requires |a| <= k <= |a| + |b|
    ensures (a + b)[..k] == a + b[..k - |a|]
  {
  }

  lemma TornFirst(h: Hash, rs: seq<Rec>, k: nat)
    requires AllFit(rs) && rs != [] && k < |Spell(rs[0])|
    ensures WhollyInside(rs, k, 0) && ReadsPrefix(h, rs, k, 0)
  {
    hide Parse, Fits, Spell;
    PartialFrame(h, rs[0], k);
    assert SpellAll(rs)[..k] == Spell(rs[0])[..k];
    assert rs[..1] == [rs[0]];
    SpellOne(rs[0]);
  }

  lemma InsideCons(rs: seq<Rec>, k: nat, m: nat)
    requires AllFit(rs) && rs != [] && m > 0 && k >= |Spell(rs[0])|
    requires WhollyInside(rs[1..], k - |Spell(rs[0])|, m - 1)
    ensures WhollyInside(rs, k, m)
  {
    hide Fits, Spell;
    SpellCons(rs, m);
    if m < |rs| {
      SpellCons(rs, m + 1);
    }
  }

  lemma JudgedCons(h: Hash, rs: seq<Rec>, m: nat)
    requires 0 < m <= |rs|
    ensures JudgedAll(h, rs[..m]) == [Judged(h, rs[0])] + JudgedAll(h, rs[1..][..m - 1])
  {
    hide Judged;
  }

  lemma SpellOne(r: Rec)
    requires Fits(r)
    ensures SpellAll([r]) == Spell(r)
  {
    assert SpellAll([r][1..]) == [];
  }

  lemma SpellCons(rs: seq<Rec>, m: nat)
    requires AllFit(rs) && 0 < m <= |rs|
    ensures SpellAll(rs[..m]) == Spell(rs[0]) + SpellAll(rs[1..][..m - 1])
  {
    hide Fits;
    assert rs[..m][1..] == rs[1..][..m - 1];
  }

  /** A truncated journal: exactly the bodies wholly inside it, all good. */
  lemma TornJournal(h: Hash, bodies: seq<Bytes>, k: nat) returns (m: nat)
    requires Writable(bodies) && Journal(h, bodies).Some? && k <= |Journal(h, bodies).value|
    ensures m <= |bodies|
    ensures var p := Parse(h, Journal(h, bodies).value[..k]);
            p.frames == WrittenAll(h, bodies[..m]) && p.stop != Refused
    ensures Journal(h, bodies[..m]).Some? && |Journal(h, bodies[..m]).value| <= k
    ensures m < |bodies| ==> Journal(h, bodies[..m + 1]).Some? && k < |Journal(h, bodies[..m + 1]).value|
  {
    hide Parse, Header;
    JournalSpelled(h, bodies);
    var rs := WrittenAll(h, bodies);
    m := TornTail(h, rs, k);
    assert rs[..m] == WrittenAll(h, bodies[..m]);
    assert JudgedAll(h, rs[..m]) == rs[..m];
    JournalSpelled(h, bodies[..m]);
    if m < |bodies| {
      assert rs[..m + 1] == WrittenAll(h, bodies[..m + 1]);
      JournalSpelled(h, bodies[..m + 1]);
    }
  }

  // ---- the reader accepts nothing else ----

  /** Where the reader stopped: the end, an incomplete frame, or a header it refuses. */
  ghost predicate StoppedAt(tail: Bytes, stop: Stop) {
    match stop
    case Clean => tail == []
    case Torn => tail != [] && (|tail| < HEADER || (GoodHeader(tail) && |tail| < FrameLen(tail)))
    case Refused => |tail| >= HEADER && !GoodHeader(tail)
  }

  lemma HeaderSpelled(raw: Bytes)
    requires |raw| >= HEADER && GoodHeader(raw)
    ensures raw[..4] in {FRAME_MAGIC, AUTHORITY_MAGIC} && raw[..HEADER] == Header(raw[..4], BodyLen(raw))
  {
    ToFrom(raw[4..8]);
    ToFrom(raw[8..12]);
    assert raw[..12] == raw[..4] + raw[4..8] + raw[8..12];
  }

  lemma HeadSpelled(h: Hash, raw: Bytes)
    requires |raw| >= HEADER && GoodHeader(raw) && |raw| >= FrameLen(raw)
    ensures var r := HeadRec(h, raw);
            Fits(r) && Judged(h, r) == r && raw == Spell(r) + raw[FrameLen(raw)..]
  {
    HeaderSpelled(raw);
    hide GoodHeader, Header, BodyLen;
    var n := BodyLen(raw);
    FourParts(raw, HEADER, HEADER + n, HEADER + n + DIGEST);
  }

  lemma FourParts(raw: Bytes, a: nat, b: nat, c: nat)
    requires a <= b <= c <= |raw|
    ensures raw == raw[..a] + raw[a..b] + raw[b..c] + raw[c..]
  {
  }

  /** Whatever the bytes, they are the spelling of the frames read, followed by what stopped the reader. */
  lemma {:induction false} ParseSpells(h: Hash, raw: Bytes) returns (tail: Bytes)
    ensures var p := Parse(h, raw);
            AllFit(p.frames) && JudgedAll(h, p.frames) == p.frames &&
            raw == SpellAll(p.frames) + tail && StoppedAt(tail, p.stop)
    decreases |raw|
  {
    hide Parse, GoodHeader, Header, BodyLen, HeadRec, Fits, Spell;
    if raw == [] {
      ParseNothing(h);
      tail := [];
    } else {
      ParseTurn(h, raw);
      if |raw| < HEADER || !GoodHeader(raw) || |raw| < FrameLen(raw) {
        tail := raw;
        assert SpellAll([]) + raw == raw;
      } else {
        var r, rest := HeadRec(h, raw), raw[FrameLen(raw)..];
        HeadSpelled(h, raw);
        tail := ParseSpells(h, rest);
        var frames := Parse(h, rest).frames;
        assert ([r] + frames)[1..] == frames;
        assert JudgedAll(h, [r] + frames) == [r] + JudgedAll(h, frames);
        Assoc(Spell(r), SpellAll(frames), tail);
      }
    }
  }

  // ---- corruption ----

  lemma {:induction false} SpellAllSplits(a: seq<Rec>, b: seq<Rec>)
    requires AllFit(a) && AllFit(b)
    ensures AllFit(a + b) && SpellAll(a + b) == SpellAll(a) + SpellAll(b)
  {
    hide Fits, Spell;
    if a == [] {
      assert a + b == b;
    } else {
      SpellAllSplits(a[1..], b);
      assert (a + b)[1..] == a[1..] + b;
      Assoc(Spell(a[0]), SpellAll(a[1..]), SpellAll(b));
    }
  }

  lemma SpellAt(rs: seq<Rec>, i: nat)
    requires AllFit(rs) && i < |rs|
    ensures AllFit(rs[..i]) && AllFit(rs[i + 1..])
    ensures SpellAll(rs) == SpellAll(rs[..i]) + Spell(rs[i]) + SpellAll(rs[i + 1..])
  {
    hide Fits, Spell, SpellAll;
    var a, b, c := rs[..i], [rs[i]], rs[i + 1..];
    ThreeParts(rs, i);
    SpellAllSplits(a, b);
    SpellAllSplits(a + b, c);
    SpellOne(rs[i]);
  }

  lemma ThreeParts(rs: seq<Rec>, i: nat)
    requires i < |rs|
    ensures rs == rs[..i] + [rs[i]] + rs[i + 1..]
  {
  }

  /** Replacing the bytes of one frame, header kept, changes only that frame's result. */
  lemma DamageIsIsolated(h: Hash, rs: seq<Rec>, i: nat, r: Rec)
    requires AllFit(rs) && i < |rs| && Fits(r) && r.magic == rs[i].magic && |r.body| == |rs[i].body|
    ensures AllFit(rs[i := r]) && AllFit(rs[..i]) && AllFit(rs[i + 1..])
    ensures SpellAll(rs) == SpellAll(rs[..i]) + Spell(rs[i]) + SpellAll(rs[i + 1..])
    ensures SpellAll(rs[i := r]) == SpellAll(rs[..i]) + Spell(r) + SpellAll(rs[i + 1..])
    ensures Parse(h, SpellAll(rs)) == Parsed(JudgedAll(h, rs), Clean)
    ensures Parse(h, SpellAll(rs[i := r])) == Parsed(JudgedAll(h, rs)[i := Judged(h, r)], Clean)
  {
    hide Parse, Fits, Spell, Judged, SpellAll;
    var damaged := rs[i := r];
    assert damaged[..i] == rs[..i] && damaged[i + 1..] == rs[i + 1..];
    SpellAt(rs, i);
    SpellAt(damaged, i);
    WholeFile(h, rs);
    WholeFile(h, damaged);
    assert JudgedAll(h, damaged) == JudgedAll(h, rs)[i := Judged(h, r)];
  }

  lemma WholeFile(h: Hash, rs: seq<Rec>)
    requires AllFit(rs)
    ensures Parse(h, SpellAll(rs)) == Parsed(JudgedAll(h, rs), Clean)
  {
    hide Parse, Fits, Spell, Judged;
    SpelledThen(h, rs, []);
    ParseNothing(h);
    assert SpellAll(rs) + [] == SpellAll(rs);
    assert JudgedAll(h, rs) + [] == JudgedAll(h, rs);
  }

  /** A damaged body is flagged unless it collides with the original, a damaged digest always. */
  lemma DamageIsFlagged(h: Hash, r: Rec, d: Rec)
    requires Judged(h, r).ok && d != r && d.magic == r.magic && d.ok == r.ok
    requires d.body == r.body || d.stored == r.stored
    ensures Judged(h, d).ok <==> d.body != r.body && HashOf(h, d.body) == HashOf(h, r.body)
  {
  }

  /** A header whose second number is not the inverse of the first is refused, after
      the frames in front of it have been read. */
  lemma BadHeaderRefused(h: Hash, front: seq<Rec>, magic: Bytes, n: nat, m: nat, rest: Bytes)
    requires AllFit(front) && |magic| == 4 && n < U32 && m < U32
    ensures var raw := SpellAll(front) + (magic + ToBE(n) + ToBE(m) + rest);
            (m != Inverse(n) ==> Parse(h, raw) == Parsed(JudgedAll(h, front), Refused))
  {
    hide Parse, Fits, Spell, Judged;
    var bad := magic + ToBE(n) + ToBE(m) + rest;
    SpelledThen(h, front, bad);
    assert bad[4..8] == ToBE(n) && bad[8..12] == ToBE(m);
    FromTo(n);
    FromTo(m);
    if m != Inverse(n) {
      ParseTurn(h, bad);
      assert JudgedAll(h, front) + [] == JudgedAll(h, front);
    }
  }

  /** Altering only the length field, or only its inverse, is always refused. */
  lemma LengthTamperRefused(h: Hash, front: seq<Rec>, r: Rec, n: nat, rest: Bytes)
    requires AllFit(front) && Fits(r) && n < U32 && n != |r.body|
    ensures Parse(h, SpellAll(front) + (r.magic + ToBE(n) + ToBE(Inverse(|r.body|)) + rest)).stop == Refused
    ensures Parse(h, SpellAll(front) + (r.magic + ToBE(|r.body|) + ToBE(Inverse(n)) + rest)).stop == Refused
  {
    hide Parse;
    BadHeaderRefused(h, front, r.magic, n, Inverse(|r.body|), rest);
    BadHeaderRefused(h, front, r.magic, |r.body|, Inverse(n), rest);
  }

  // ---- the header's numbers ----

  /** The base-256 value of `b`, most significant byte first. */
  function Positional(b: Bytes): nat {
    if b == [] then 0 else 256 * Positional(b[..|b| - 1]) + b[|b| - 1] as int
  }

  /** Lengths are written and read big-endian. */
  lemma BigEndian(b: Bytes, n: nat)
    requires |b| == 4 && n < U32
    ensures FromBE(b) == Positional(b) && Positional(ToBE(n)) == n
  {
    FourBytes(b);
    FourBytes(ToBE(n));
    FromTo(n);
  }

  lemma FourBytes(b: Bytes)
    requires |b| == 4
    ensures Positional(b) == FromBE(b)
  {
    assert b[..3][..2] == b[..2] && b[..2][..1] == b[..1] && b[..1][..0] == [];
    assert Positional(b[..1]) == b[0] as int;
    assert Positional(b[..2]) == 256 * b[0] as int + b[1] as int;
    assert Positional(b[..3]) == 256 * (256 * b[0] as int + b[1] as int) + b[2] as int;
  }

  /** The `k` low bits of `n`, each turned over. */
  function Flipped(n: nat, k: nat): nat {
    if k == 0 then 0 else 2 * Flipped(n / 2, k - 1) + (1 - n % 2)
  }

  function Power(k: nat): nat {
    if k == 0 then 1 else 2 * Power(k - 1)
  }

  lemma {:induction false} FlippedIs(n: nat, k: nat)
    requires n < Power(k)
    ensures Flipped(n, k) == Power(k) - 1 - n
  {
    if k > 0 {
      FlippedIs(n / 2, k - 1);
    }
  }

  /** The second number of a header is the first with all 32 bits turned over. */
  lemma InverseFlips(n: nat)
    requires n < U32
    ensures Inverse(n) == Flipped(n, 32)
  {
    assert Power(8) == 256;
    assert Power(16) == 0x1_0000;
    assert Power(24) == 0x100_0000;
    assert Power(32) == U32;
    FlippedIs(n, 32);
  }

  /** The magics are ASCII text. */
  lemma MagicsSpell()
    ensures FRAME_MAGIC == seq(4, k requires 0 <= k < 4 => "WJ01"[k] as int)
    ensures AUTHORITY_MAGIC == seq(4, k requires 0 <= k < 4 => "WSA1"[k] as int)
  {
  }
}
