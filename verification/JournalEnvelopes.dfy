/** Envelopes: the checksum spliced in before the closing brace, and its recovery
    from the bytes on disk (scripts/f23-h1-legacy-journal.py, scripts/f23-journal-forensics.py). */
module JournalEnvelopes {
  import opened Common
  import opened JournalFrames
  import opened JournalCodec

  // ---- the writer ----

  function HexDigit(n: nat): byte
    requires n < 16
  {
    if n < 10 then 48 + n else 87 + n
  }

  /** `hexdigest()` */
  function Hex(b: Bytes): (s: Bytes)
    ensures |s| == 2 * |b|
  {
    seq(2 * |b|, k requires 0 <= k < 2 * |b| =>
      HexDigit(if k % 2 == 0 then b[k / 2] as int / 16 else b[k / 2] as int % 16))
  }

  const CHECKSUM_TAIL: Bytes := Ascii(",\"checksum\":\"")
  const CLOSE: Bytes := Ascii("\"}")
  const GENESIS: Bytes := seq(64, _ => 48)

  function Decimal(n: nat): Bytes
  {
    if n < 10 then [48 + n] else Decimal(n / 10) + [48 + n % 10]
  }

  /** The hashed bytes: the envelope without its checksum.  `sid` and `event` are the
      encoded session id and payload; nothing is assumed of either. */
  function Material(sid: Bytes, seqNo: nat, previous: Bytes, event: Bytes): (m: Bytes)
    ensures m != [] && m[|m| - 1] == 125
  {
    Ascii("{\"schema_version\":5,\"session_id\":") + sid + Ascii(",\"seq\":") + Decimal(seqNo) +
    Ascii(",\"previous_checksum\":\"") + previous + Ascii("\",\"event\":") + event + Ascii("}")
  }

  /** The checksum spliced in before the closing brace of `material`. */
  function Splice(material: Bytes, checksum: Bytes): Bytes
    requires material != []
  {
    material[..|material| - 1] + CHECKSUM_TAIL + checksum + CLOSE
  }

  datatype Envelope = Envelope(body: Bytes, checksum: Bytes)

  function EnvelopeBody(h: Hash, sid: Bytes, seqNo: nat, previous: Bytes, event: Bytes): Envelope {
    var m := Material(sid, seqNo, previous, event);
    var c := Hex(HashOf(h, m));
    Envelope(Splice(m, c), c)
  }

  /** Bodies of a chained journal: every envelope carries the checksum of the one before it. */
  function Chain(h: Hash, sid: Bytes, seqNo: nat, previous: Bytes, events: seq<Bytes>): (bs: seq<Bytes>)
    ensures |bs| == |events|
    decreases |events|
  {
    if events == [] then []
    else
      var e := EnvelopeBody(h, sid, seqNo, previous, events[0]);
      [e.body] + Chain(h, sid, seqNo + 1, e.checksum, events[1..])
  }

  // ---- the reader ----

  /** `rfind`: the last offset at which `pat` occurs. */
  function RFindUpTo(s: Bytes, pat: Bytes, k: nat): (r: Option<nat>)
    requires k <= |s|
    ensures r.Some? ==> r.value <= k && pat <= s[r.value..] && forall j :: r.value < j <= k ==> !(pat <= s[j..])
    ensures r.None? ==> forall j :: 0 <= j <= k ==> !(pat <= s[j..])
  {
    if pat <= s[k..] then Some(k) else if k == 0 then None else RFindUpTo(s, pat, k - 1)
  }

  function RFind(s: Bytes, pat: Bytes): (r: Option<nat>)
    ensures r.Some? ==> r.value <= |s| && pat <= s[r.value..] && forall j :: r.value < j <= |s| ==> !(pat <= s[j..])
    ensures r.None? ==> forall j :: 0 <= j <= |s| ==> !(pat <= s[j..])
  {
    RFindUpTo(s, pat, |s|)
  }

  predicate IsAscii(b: Bytes) {
    forall k :: 0 <= k < |b| ==> b[k] < 128
  }

  /** `None` in the source is `OtherShape`; a checksum outside ASCII raises. */
  datatype Recovered = OtherShape | Raises | Recovered(material: Bytes, checksum: Bytes)

  function MaterialFrom(body: Bytes): Recovered {
    match RFind(body, CHECKSUM_TAIL)
    case None => OtherShape
    case Some(idx) =>
      var tail := body[idx..];
      if |tail| < 2 || tail[|tail| - 2..] != CLOSE then OtherShape
      else if |tail| - 2 < |CHECKSUM_TAIL| then OtherShape
      else
        var stored := tail[|CHECKSUM_TAIL|..|tail| - 2];
        if |stored| != 64 then OtherShape
        else if !IsAscii(stored) then Raises
        else Recovered(body[..idx] + Ascii("}"), stored)
  }

  /** The checksum member goes in front of the brace that closes the material. */
  lemma SpliceSays(open: Bytes, checksum: Bytes)
    ensures Splice(open + Ascii("}"), checksum) == open + Ascii(",\"checksum\":\"") + checksum + Ascii("\"}")
  {
    assert (open + Ascii("}"))[..|open|] == open;
  }

  // ---- recovery ----

  lemma TailShape()
    ensures |CHECKSUM_TAIL| == 13 && CHECKSUM_TAIL[0] == 44 && (forall k :: 0 < k < 13 ==> CHECKSUM_TAIL[k] != 44)
    ensures |CLOSE| == 2 && CLOSE[0] == 34 && CLOSE[1] == 125
    ensures Ascii("}") == [125]
  {
  }

  /** A byte string behind the last comma holds no second checksum member. */
  lemma LastTail(front: Bytes, checksum: Bytes)
    requires 44 !in checksum
    ensures RFind(front + CHECKSUM_TAIL + checksum + CLOSE, CHECKSUM_TAIL) == Some(|front|)
  {
    TailShape();
    var s := front + CHECKSUM_TAIL + checksum + CLOSE;
    var n := |front|;
    assert s[n..] == CHECKSUM_TAIL + (checksum + CLOSE);
    forall j | n < j <= |s| ensures !(CHECKSUM_TAIL <= s[j..]) {
      if j < |s| {
        var x := s[j..];
        assert x[0] == s[j];
        assert s[j] != 44 by { BehindTail(front, checksum, j); }
      }
    }
    assert CHECKSUM_TAIL <= s[n..];
  }

  lemma BehindTail(front: Bytes, checksum: Bytes, j: nat)
    requires 44 !in checksum
    requires |front| < j < |front + CHECKSUM_TAIL + checksum + CLOSE|
    ensures (front + CHECKSUM_TAIL + checksum + CLOSE)[j] != 44
  {
    TailShape();
    var s := front + CHECKSUM_TAIL + checksum + CLOSE;
    var k := j - |front|;
    if k < 13 {
      assert s[j] == CHECKSUM_TAIL[k];
    } else if k < 13 + |checksum| {
      assert s[j] == checksum[k - 13];
    } else {
      assert s[j] == CLOSE[k - 13 - |checksum|];
    }
  }

  /** A spliced checksum is found again, and so are the bytes it was computed over -
      even when they contain the text that introduces a checksum. */
  lemma SpliceRecovered(material: Bytes, checksum: Bytes)
    requires material != [] && material[|material| - 1] == 125
    requires |checksum| == 64 && 44 !in checksum && IsAscii(checksum)
    ensures MaterialFrom(Splice(material, checksum)) == Recovered(material, checksum)
  {
    hide RFind;
    TailShape();
    var front := material[..|material| - 1];
    LastTail(front, checksum);
    var body := Splice(material, checksum);
    var tail := body[|front|..];
    assert tail == CHECKSUM_TAIL + checksum + CLOSE;
    assert tail[|tail| - 2..] == CLOSE && tail[13..|tail| - 2] == checksum;
    assert body[..|front|] + [125] == material;
  }

  /** Conversely, whatever is recovered is what was spliced. */
  lemma RecoveredSpliced(body: Bytes)
    requires MaterialFrom(body).Recovered?
    ensures var r := MaterialFrom(body);
            r.material != [] && r.material[|r.material| - 1] == 125 && |r.checksum| == 64 &&
            body == Splice(r.material, r.checksum)
  {
    TailShape();
    var idx := RFind(body, CHECKSUM_TAIL).value;
    hide RFind;
    PrefixAt(body, idx, CHECKSUM_TAIL);
    var tail := body[idx..];
    assert body == body[..idx] + tail;
    assert tail == CHECKSUM_TAIL + tail[13..|tail| - 2] + CLOSE;
    var r := MaterialFrom(body);
    assert r.material[..|r.material| - 1] == body[..idx];
  }

  lemma HexPlain(b: Bytes)
    ensures 44 !in Hex(b) && IsAscii(Hex(b))
  {
    assert forall n: nat :: n < 16 ==> 48 <= HexDigit(n) < 128;
  }

  /** For every payload the reader recovers exactly the bytes the writer hashed. */
  lemma MaterialRecovered(h: Hash, sid: Bytes, seqNo: nat, previous: Bytes, event: Bytes)
    ensures var e := EnvelopeBody(h, sid, seqNo, previous, event);
            MaterialFrom(e.body) == Recovered(Material(sid, seqNo, previous, event), e.checksum)
  {
    hide Splice, MaterialFrom, Material;
    var m := Material(sid, seqNo, previous, event);
    HexPlain(HashOf(h, m));
    SpliceRecovered(m, Hex(HashOf(h, m)));
  }

  // ---- the verdict ----

  /** What the report says of one frame. */
  datatype Grade = Consistent | Inconsistent | Undecodable

  function GradeOf(h: Hash, r: Rec): Grade {
    if !r.ok then Inconsistent
    else if r.magic != FRAME_MAGIC then Consistent
    else
      match MaterialFrom(r.body)
      case OtherShape => Inconsistent
      case Raises => Undecodable
      case Recovered(m, c) => if Hex(HashOf(h, m)) == c then Consistent else Inconsistent
  }

  /** Exit code: 2 on a refused header or an undecodable checksum, 1 on any inconsistent frame. */
  ghost function Verdict(h: Hash, raw: Bytes): int {
    var p := Parse(h, raw);
    if p.stop == Refused || exists k :: 0 <= k < |p.frames| && GradeOf(h, p.frames[k]).Undecodable? then 2
    else if exists k :: 0 <= k < |p.frames| && GradeOf(h, p.frames[k]).Inconsistent? then 1
    else 0
  }

  ghost predicate NoneUndecodable(h: Hash, rs: seq<Rec>) {
    forall j :: 0 <= j < |rs| ==> !GradeOf(h, rs[j]).Undecodable?
  }

  ghost predicate NoneInconsistent(h: Hash, rs: seq<Rec>) {
    forall j :: 0 <= j < |rs| ==> !GradeOf(h, rs[j]).Inconsistent?
  }

  lemma OneMore(h: Hash, rs: seq<Rec>, k: nat)
    requires k < |rs|
    ensures NoneUndecodable(h, rs[..k + 1]) <==> NoneUndecodable(h, rs[..k]) && !GradeOf(h, rs[k]).Undecodable?
    ensures NoneInconsistent(h, rs[..k + 1]) <==> NoneInconsistent(h, rs[..k]) && !GradeOf(h, rs[k]).Inconsistent?
  {
    hide GradeOf;
    assert rs[..k + 1] == rs[..k] + [rs[k]];
  }

  lemma VerdictIs(h: Hash, raw: Bytes, k: nat)
    requires k <= |Parse(h, raw).frames|
    ensures k == |Parse(h, raw).frames| && NoneUndecodable(h, Parse(h, raw).frames[..k]) ==>
              Verdict(h, raw) == if Parse(h, raw).stop == Refused then 2
                                 else if NoneInconsistent(h, Parse(h, raw).frames[..k]) then 0 else 1
    ensures k < |Parse(h, raw).frames| && GradeOf(h, Parse(h, raw).frames[k]).Undecodable? ==> Verdict(h, raw) == 2
  {
    hide GradeOf, Parse;
  }

  method Report(h: Hash, raw: Bytes) returns (code: int)
    ensures code == Verdict(h, raw)
  {
    hide Parse, MaterialFrom, Verdict, NoneUndecodable, NoneInconsistent, Hex;
    var p := ParseFrames(h, raw);
    var inconsistent, envelopes := 0, 0;
    VerdictStart(h);
    for k := 0 to |p.frames|
      invariant NoneUndecodable(h, p.frames[..k])
      invariant inconsistent >= 0 && (inconsistent == 0 <==> NoneInconsistent(h, p.frames[..k]))
    {
      var r := p.frames[k];
      OneMore(h, p.frames, k);
      VerdictIs(h, raw, k);
      if !r.ok {
        inconsistent := inconsistent + 1;
        continue;
      }
      if r.magic != FRAME_MAGIC {
        continue;
      }
      envelopes := envelopes + 1;
      var rec := MaterialFrom(r.body);
      if rec.OtherShape? {
        inconsistent := inconsistent + 1;
        continue;
      }
      if rec.Raises? {
        return 2;
      }
      if Hex(HashOf(h, rec.material)) == rec.checksum {
        continue;
      }
      inconsistent := inconsistent + 1;
    }
    VerdictIs(h, raw, |p.frames|);
    if p.stop == Refused {
      return 2;
    }
    code := if inconsistent == 0 then 0 else 1;
  }

  lemma VerdictStart(h: Hash)
    ensures NoneUndecodable(h, []) && NoneInconsistent(h, [])
  {
  }

  lemma EnvelopeConsistent(h: Hash, sid: Bytes, seqNo: nat, previous: Bytes, event: Bytes)
    ensures GradeOf(h, Written(h, EnvelopeBody(h, sid, seqNo, previous, event).body)) == Consistent
  {
    hide MaterialFrom, EnvelopeBody, Hex, Material;
    MaterialRecovered(h, sid, seqNo, previous, event);
    ChecksumIs(h, sid, seqNo, previous, event);
  }

  lemma {:induction false} ChainConsistent(h: Hash, sid: Bytes, seqNo: nat, previous: Bytes, events: seq<Bytes>, k: nat)
    requires k < |events|
    ensures GradeOf(h, Written(h, Chain(h, sid, seqNo, previous, events)[k])) == Consistent
    decreases k
  {
    hide GradeOf, EnvelopeBody;
    var e := EnvelopeBody(h, sid, seqNo, previous, events[0]);
    if k == 0 {
      EnvelopeConsistent(h, sid, seqNo, previous, events[0]);
    } else {
      ChainConsistent(h, sid, seqNo + 1, e.checksum, events[1..], k - 1);
    }
  }

  lemma ChecksumIs(h: Hash, sid: Bytes, seqNo: nat, previous: Bytes, event: Bytes)
    ensures EnvelopeBody(h, sid, seqNo, previous, event).checksum ==
              Hex(HashOf(h, Material(sid, seqNo, previous, event)))
  {
  }

  /** Any truncation of any chained journal is reported self-consistent. */
  lemma ChainReportsClean(h: Hash, sid: Bytes, events: seq<Bytes>, k: nat)
    requires var bodies := Chain(h, sid, 0, GENESIS, events);
             Journal(h, bodies).Some? && k <= |Journal(h, bodies).value|
    ensures Verdict(h, Journal(h, Chain(h, sid, 0, GENESIS, events)).value[..k]) == 0
  {
    hide Parse, GradeOf, Chain;
    var bodies := Chain(h, sid, 0, GENESIS, events);
    JournalWritable(h, bodies);
    var m := TornJournal(h, bodies, k);
    forall j | 0 <= j < m ensures GradeOf(h, WrittenAll(h, bodies[..m])[j]) == Consistent {
      ChainConsistent(h, sid, 0, GENESIS, events, j);
    }
  }

  lemma {:induction false} JournalWritable(h: Hash, bodies: seq<Bytes>)
    requires Journal(h, bodies).Some?
    ensures Writable(bodies)
  {
    if bodies != [] {
      JournalWritable(h, bodies[1..]);
      assert forall k :: 0 < k < |bodies| ==> bodies[k] == bodies[1..][k - 1];
    }
  }

  /** A frame counts as consistent exactly when its digest is good and, for an
      envelope, when it is some material with the material's own checksum spliced in. */
  lemma ConsistentIff(h: Hash, r: Rec)
    requires r.ok && r.magic == FRAME_MAGIC
    ensures GradeOf(h, r).Consistent? <==>
              exists m: Bytes :: m != [] && m[|m| - 1] == 125 && r.body == Splice(m, Hex(HashOf(h, m)))
  {
    hide MaterialFrom, Splice, Hex;
    if GradeOf(h, r).Consistent? {
      RecoveredSpliced(r.body);
    }
    if m: Bytes :| m != [] && m[|m| - 1] == 125 && r.body == Splice(m, Hex(HashOf(h, m))) {
      HexPlain(HashOf(h, m));
      SpliceRecovered(m, Hex(HashOf(h, m)));
    }
  }

  // ---- what the exit code says of the bytes ----

  /** Some material of the envelope's shape with its own checksum spliced in. */
  ghost predicate SelfSealed(h: Hash, body: Bytes) {
    exists m: Bytes :: m != [] && m[|m| - 1] == 125 && body == Splice(m, Hex(HashOf(h, m)))
  }

  /** The stored digest is that of the body, and the body of an envelope is sealed by itself. */
  ghost predicate Intact(h: Hash, r: Rec) {
    HashOf(h, r.body) == r.stored && (r.magic == FRAME_MAGIC ==> SelfSealed(h, r.body))
  }

  /** The digest is good, but where an envelope's checksum stands there are 64 bytes that are no ASCII text. */
  ghost predicate Garbled(h: Hash, r: Rec) {
    HashOf(h, r.body) == r.stored && r.magic == FRAME_MAGIC && exists front, stored :: NoText(r.body, front, stored)
  }

  ghost predicate NoText(body: Bytes, front: Bytes, stored: Bytes) {
    body == front + CHECKSUM_TAIL + stored + CLOSE && |stored| == 64 && (exists k :: 0 <= k < 64 && stored[k] >= 128) &&
    forall j :: |front| < j <= |body| ==> !(CHECKSUM_TAIL <= body[j..])
  }

  lemma GradeConsistent(h: Hash, r: Rec)
    requires r.ok <==> HashOf(h, r.body) == r.stored
    ensures GradeOf(h, r).Consistent? <==> Intact(h, r)
  {
    hide MaterialFrom, Splice, Hex;
    if r.ok && r.magic == FRAME_MAGIC {
      ConsistentIff(h, r);
    }
  }

  lemma GradeUndecodable(h: Hash, r: Rec)
    requires r.ok <==> HashOf(h, r.body) == r.stored
    ensures GradeOf(h, r).Undecodable? <==> Garbled(h, r)
  {
    hide MaterialFrom, NoText, Hex;
    RaisesIff(r.body);
  }

  lemma RaisesIff(body: Bytes)
    ensures MaterialFrom(body).Raises? <==> exists front, stored :: NoText(body, front, stored)
  {
    if MaterialFrom(body).Raises? {
      var front, stored := RaisesParts(body);
      assert NoText(body, front, stored);
    }
    forall front, stored | NoText(body, front, stored) ensures MaterialFrom(body).Raises? {
      PartsRaise(body, front, stored);
    }
  }

  lemma RaisesParts(body: Bytes) returns (front: Bytes, stored: Bytes)
    requires MaterialFrom(body).Raises?
    ensures NoText(body, front, stored)
  {
    TailShape();
    var idx := RFind(body, CHECKSUM_TAIL).value;
    var tail := body[idx..];
    front, stored := body[..idx], tail[|CHECKSUM_TAIL|..|tail| - 2];
    hide CHECKSUM_TAIL, CLOSE;
    TailSpelled(tail);
    assert body == front + tail;
    Assoc(front, CHECKSUM_TAIL + stored, CLOSE);
    Assoc(front, CHECKSUM_TAIL, stored);
  }

  lemma TailSpelled(tail: Bytes)
    requires |tail| >= |CHECKSUM_TAIL| + 2 && CHECKSUM_TAIL <= tail && tail[|tail| - 2..] == CLOSE
    ensures tail == CHECKSUM_TAIL + tail[|CHECKSUM_TAIL|..|tail| - 2] + CLOSE
  {
    hide CHECKSUM_TAIL, CLOSE;
  }

  lemma PartsRaise(body: Bytes, front: Bytes, stored: Bytes)
    requires NoText(body, front, stored)
    ensures MaterialFrom(body).Raises?
  {
    TailShape();
    hide CHECKSUM_TAIL, CLOSE;
    var tail := CHECKSUM_TAIL + stored + CLOSE;
    assert body == front + tail && body[|front|..] == tail;
    assert CHECKSUM_TAIL <= body[|front|..];
    assert RFind(body, CHECKSUM_TAIL) == Some(|front|);
    assert tail[|tail| - 2..] == CLOSE && tail[13..|tail| - 2] == stored;
    assert !IsAscii(stored);
  }

  lemma FramesJudged(h: Hash, raw: Bytes)
    ensures forall k :: 0 <= k < |Parse(h, raw).frames| ==>
              var r := Parse(h, raw).frames[k]; r.ok <==> HashOf(h, r.body) == r.stored
  {
    hide Parse;
    var tail := ParseSpells(h, raw);
    var rs := Parse(h, raw).frames;
    forall k | 0 <= k < |rs| ensures rs[k].ok <==> HashOf(h, rs[k].body) == rs[k].stored {
      assert JudgedAll(h, rs)[k] == Judged(h, rs[k]);
    }
  }

  /** Exit 2 exactly for a refused header or a checksum that is no text; exit 0 exactly when no
      header is refused and every frame read is intact; exit 1 otherwise. */
  lemma VerdictSays(h: Hash, raw: Bytes)
    ensures Verdict(h, raw) in {0, 1, 2}
    ensures Verdict(h, raw) == 2 <==>
              Parse(h, raw).stop == Refused || exists r :: r in Parse(h, raw).frames && Garbled(h, r)
    ensures Verdict(h, raw) == 0 <==>
              Parse(h, raw).stop != Refused && forall r :: r in Parse(h, raw).frames ==> Intact(h, r)
  {
    hide Parse, GradeOf, Intact, Garbled;
    var rs := Parse(h, raw).frames;
    FramesJudged(h, raw);
    forall k | 0 <= k < |rs|
      ensures GradeOf(h, rs[k]).Consistent? <==> Intact(h, rs[k])
      ensures GradeOf(h, rs[k]).Undecodable? <==> Garbled(h, rs[k])
    {
      GradeConsistent(h, rs[k]);
      GradeUndecodable(h, rs[k]);
    }
  }

  /** One frame of a chained journal damaged in its body or its digest: the report is 1, unless the
      damaged body collides with the original. */
  lemma DamagedChainReported(h: Hash, sid: Bytes, events: seq<Bytes>, i: nat, d: Rec)
    requires var bodies := Chain(h, sid, 0, GENESIS, events);
             Journal(h, bodies).Some? && i < |bodies| &&
             var r := WrittenAll(h, bodies)[i];
             Fits(d) && d != r && d.magic == r.magic && d.ok == r.ok && |d.body| == |r.body| &&
             (d.body == r.body || d.stored == r.stored)
    ensures var bodies := Chain(h, sid, 0, GENESIS, events);
            var rs := WrittenAll(h, bodies);
            AllFit(rs[i := d]) &&
            (Verdict(h, SpellAll(rs[i := d])) != 1 ==> d.body != bodies[i] && HashOf(h, d.body) == HashOf(h, bodies[i]))
  {
    hide Parse, GradeOf, Chain, Fits, Spell, SpellAll, Verdict;
    var bodies := Chain(h, sid, 0, GENESIS, events);
    JournalWritable(h, bodies);
    WrittenFit(h, bodies);
    var rs := WrittenAll(h, bodies);
    DamageIsIsolated(h, rs, i, d);
    DamageIsFlagged(h, rs[i], d);
    if !Judged(h, d).ok {
      forall j | 0 <= j < |bodies| ensures GradeOf(h, JudgedAll(h, rs)[j]) == Consistent {
        ChainConsistent(h, sid, 0, GENESIS, events, j);
      }
      OneBad(h, SpellAll(rs[i := d]), i);
    }
  }

  lemma OneBad(h: Hash, raw: Bytes, i: nat)
    requires var p := Parse(h, raw);
             p.stop == Clean && i < |p.frames| && !p.frames[i].ok &&
             forall j :: 0 <= j < |p.frames| && j != i ==> GradeOf(h, p.frames[j]) == Consistent
    ensures Verdict(h, raw) == 1
  {
    hide Parse;
    assert GradeOf(h, Parse(h, raw).frames[i]).Inconsistent?;
    hide GradeOf;
  }

  /** Every body is that of its event, numbered on, with the checksum of the body before it. */
  lemma {:induction false} ChainAt(h: Hash, sid: Bytes, seqNo: nat, previous: Bytes, events: seq<Bytes>, k: nat)
    requires k < |events|
    ensures Chain(h, sid, seqNo, previous, events)[k] ==
            EnvelopeBody(h, sid, seqNo + k, Before(h, sid, seqNo, previous, events, k), events[k]).body
    decreases k
  {
    hide EnvelopeBody;
    if k > 0 {
      var e := EnvelopeBody(h, sid, seqNo, previous, events[0]);
      ChainAt(h, sid, seqNo + 1, e.checksum, events[1..], k - 1);
      BeforeShifts(h, sid, seqNo, previous, events, k);
    }
  }

  /** The checksum in front of body `k`, counted from the start of the chain. */
  function Before(h: Hash, sid: Bytes, seqNo: nat, previous: Bytes, events: seq<Bytes>, k: nat): Bytes
    requires k <= |events|
  {
    if k == 0 then previous
    else
      Hex(HashOf(h, Material(sid, seqNo + k - 1, Before(h, sid, seqNo, previous, events, k - 1), events[k - 1])))
  }

  lemma {:induction false} BeforeShifts(h: Hash, sid: Bytes, seqNo: nat, previous: Bytes, events: seq<Bytes>, k: nat)
    requires 0 < k <= |events|
    ensures Before(h, sid, seqNo, previous, events, k) ==
            Before(h, sid, seqNo + 1, EnvelopeBody(h, sid, seqNo, previous, events[0]).checksum, events[1..], k - 1)
  {
    hide Material, Hex;
    ChecksumIs(h, sid, seqNo, previous, events[0]);
    if k > 1 {
      BeforeShifts(h, sid, seqNo, previous, events, k - 1);
      hide EnvelopeBody;
    }
  }

  /** Checksums are written in lower-case hexadecimal, the high half of a byte first. */
  lemma HexSpells(b: Bytes, k: nat)
    requires k < |b|
    ensures var digits := "0123456789abcdef";
            Hex(b)[2 * k] as int == digits[b[k] as int / 16] as int &&
            Hex(b)[2 * k + 1] as int == digits[b[k] as int % 16] as int
  {
    HexDigitSpells(b[k] as int / 16);
    HexDigitSpells(b[k] as int % 16);
    assert (2 * k) / 2 == k && (2 * k + 1) / 2 == k;
  }

  lemma HexDigitSpells(n: nat)
    requires n < 16
    ensures HexDigit(n) as int == "0123456789abcdef"[n] as int
  {
  }
}
