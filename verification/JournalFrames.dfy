/** The session-journal frame codec: magic, length, inverted length, body and
    digest (writer scripts/f23-h1-legacy-journal.py, reader scripts/f23-journal-forensics.py).
    The hash is a parameter; nothing is assumed of it but its 32-byte output. */
module JournalFrames {
  import opened Common

  type byte = x: int | 0 <= x < 256
  type Bytes = seq<byte>
  type Digest = d: Bytes | |d| == 32 witness seq(32, _ => 0)

  /** Any hash with a 32-byte output, as the table of its values. */
  type Hash = imap<Bytes, Digest>

  /** `hashlib.sha256(b).digest()` */
  function HashOf(h: Hash, b: Bytes): (d: Bytes)
    ensures |d| == 32
  {
    if b in h then h[b] else seq(32, _ => 0)
  }

  const U32 := 0x1_0000_0000
  const HEADER := 12
  const DIGEST := 32

  function Ascii(s: string): Bytes {
    seq(|s|, i requires 0 <= i < |s| => if s[i] < '\U{80}' then s[i] as int else 63)
  }

  const FRAME_MAGIC: Bytes := [0x57, 0x4A, 0x30, 0x31]
  const AUTHORITY_MAGIC: Bytes := [0x57, 0x53, 0x41, 0x31]

  /** `n.to_bytes(4, "big")` */
  function ToBE(n: nat): (b: Bytes)
    requires n < U32
    ensures |b| == 4
  {
    [n / 0x100_0000, n / 0x1_0000 % 256, n / 256 % 256, n % 256]
  }

  /** `int.from_bytes(b, "big")` */
  function FromBE(b: Bytes): (n: nat)
    requires |b| == 4
    ensures n < U32
  {
    b[0] as int * 0x100_0000 + b[1] as int * 0x1_0000 + b[2] as int * 256 + b[3] as int
  }

  lemma FromTo(n: nat)
    requires n < U32
    ensures FromBE(ToBE(n)) == n
  {
    assert n == n / 256 * 256 + n % 256;
    var m := n / 256;
    assert m == m / 256 * 256 + m % 256 && m / 256 == n / 0x1_0000;
    var k := m / 256;
    assert k == k / 256 * 256 + k % 256 && k / 256 == n / 0x100_0000;
  }

  lemma ToFrom(b: Bytes)
    requires |b| == 4
    ensures ToBE(FromBE(b)) == b
  {
    var n := FromBE(b);
    var p, q, r := b[0] as int, b[0] as int * 256 + b[1] as int, (b[0] as int * 256 + b[1] as int) * 256 + b[2] as int;
    assert n == r * 256 + b[3] as int;
    assert n / 256 == r && n / 0x1_0000 == q && n / 0x100_0000 == p;
  }

  /** `n ^ 0xFFFFFFFF` and `~n & 0xFFFFFFFF` on 32 bits. */
  function Inverse(n: nat): (m: nat)
    requires n < U32
    ensures m < U32
  {
    U32 - 1 - n
  }

  function Header(magic: Bytes, n: nat): Bytes
    requires n < U32
  {
    magic + ToBE(n) + ToBE(Inverse(n))
  }

  /** What the writer appends for one body; it refuses a body the length field cannot hold. */
  function Frame(h: Hash, body: Bytes): Option<Bytes> {
    if |body| >= U32 then None else Some(Header(FRAME_MAGIC, |body|) + body + HashOf(h, body))
  }

  // ---- the reader ----

  /** A frame as read; `ok` when the stored digest is that of the body. */
  datatype Rec = Rec(magic: Bytes, body: Bytes, stored: Bytes, ok: bool)

  datatype Stop = Clean | Torn | Refused

  datatype Parsed = Parsed(frames: seq<Rec>, stop: Stop)

  function BodyLen(raw: Bytes): nat
    requires |raw| >= HEADER
  {
    FromBE(raw[4..8])
  }

  predicate GoodHeader(raw: Bytes)
    requires |raw| >= HEADER
  {
    raw[..4] in {FRAME_MAGIC, AUTHORITY_MAGIC} && FromBE(raw[8..12]) == Inverse(BodyLen(raw))
  }

  /** Length of the whole frame that the header at the head of `raw` announces. */
  function FrameLen(raw: Bytes): (n: nat)
    requires |raw| >= HEADER
    ensures n >= HEADER + DIGEST
  {
    HEADER + BodyLen(raw) + DIGEST
  }

  function HeadRec(h: Hash, raw: Bytes): Rec
    requires |raw| >= HEADER && |raw| >= FrameLen(raw)
  {
    var n := BodyLen(raw);
    var body, stored := raw[HEADER..HEADER + n], raw[HEADER + n..HEADER + n + DIGEST];
    Rec(raw[..4], body, stored, HashOf(h, body) == stored)
  }

  function Parse(h: Hash, raw: Bytes): Parsed {
    if raw == [] then Parsed([], Clean)
    else if |raw| < HEADER then Parsed([], Torn)
    else if !GoodHeader(raw) then Parsed([], Refused)
    else if |raw| < FrameLen(raw) then Parsed([], Torn)
    else
      var rest := Parse(h, raw[FrameLen(raw)..]);
      Parsed([HeadRec(h, raw)] + rest.frames, rest.stop)
  }

  /** The reader: an offset walked over the file, `n` counting frames. */
  method ParseFrames(h: Hash, raw: Bytes) returns (p: Parsed)
    ensures p == Parse(h, raw)
  {
    hide Parse, GoodHeader, FrameLen, HeadRec, Ahead;
    var off, n := 0, 0;
    var frames: seq<Rec> := [];
    AheadStart(h, raw);
    while off < |raw|
      invariant 0 <= off <= |raw| && n == |frames|
      invariant Ahead(h, raw, off, frames)
    {
      n := n + 1;
      var rem := raw[off..];
      AheadStops(h, raw, off, frames);
      if |rem| < HEADER {
        p := Parsed(frames, Torn);
        return;
      }
      if !GoodHeader(rem) {
        p := Parsed(frames, Refused);
        return;
      }
      var end := FrameLen(rem);
      if |rem| < end {
        p := Parsed(frames, Torn);
        return;
      }
      AheadStep(h, raw, off, frames, end);
      frames := frames + [HeadRec(h, rem)];
      off := off + end;
    }
    AheadDone(h, raw, off, frames);
    p := Parsed(frames, Clean);
  }

  /** The frames ahead of `off` complete those already yielded. */
  ghost predicate Ahead(h: Hash, raw: Bytes, off: nat, frames: seq<Rec>) {
    off <= |raw| && Parse(h, raw) == Parsed(frames + Parse(h, raw[off..]).frames, Parse(h, raw[off..]).stop)
  }

  lemma AheadStart(h: Hash, raw: Bytes)
    ensures Ahead(h, raw, 0, [])
  {
    hide Parse;
    assert raw[0..] == raw;
  }

  lemma AheadDone(h: Hash, raw: Bytes, off: nat, frames: seq<Rec>)
    requires Ahead(h, raw, off, frames) && off >= |raw|
    ensures Parse(h, raw) == Parsed(frames, Clean)
  {
    assert raw[off..] == [];
  }

  /** Where the reader stops, what it has yielded is all there is. */
  lemma AheadStops(h: Hash, raw: Bytes, off: nat, frames: seq<Rec>)
    requires Ahead(h, raw, off, frames) && off < |raw|
    ensures var rem := raw[off..];
            if |rem| < HEADER then Parse(h, raw) == Parsed(frames, Torn)
            else if !GoodHeader(rem) then Parse(h, raw) == Parsed(frames, Refused)
            else |rem| < FrameLen(rem) ==> Parse(h, raw) == Parsed(frames, Torn)
  {
    hide Parse, GoodHeader, FrameLen, HeadRec;
    ParseTurn(h, raw[off..]);
    assert frames + [] == frames;
  }

  lemma AheadStep(h: Hash, raw: Bytes, off: nat, frames: seq<Rec>, end: nat)
    requires Ahead(h, raw, off, frames) && off + end <= |raw| && |raw[off..]| >= HEADER
    requires GoodHeader(raw[off..]) && FrameLen(raw[off..]) == end
    ensures Ahead(h, raw, off + end, frames + [HeadRec(h, raw[off..])])
  {
    hide Parse, GoodHeader, BodyLen, HeadRec;
    ParseTurn(h, raw[off..]);
    Tail(raw, off, end);
    Assoc(frames, [HeadRec(h, raw[off..])], Parse(h, raw[off + end..]).frames);
  }

  lemma ParseNothing(h: Hash)
    ensures Parse(h, []) == Parsed([], Clean)
  {
  }

  /** One turn of the reader, read off the specification. */
  lemma ParseTurn(h: Hash, raw: Bytes)
    requires raw != []
    ensures if |raw| < HEADER then Parse(h, raw) == Parsed([], Torn)
            else if !GoodHeader(raw) then Parse(h, raw) == Parsed([], Refused)
            else if |raw| < FrameLen(raw) then Parse(h, raw) == Parsed([], Torn)
            else Parse(h, raw) == Parsed([HeadRec(h, raw)] + Parse(h, raw[FrameLen(raw)..]).frames,
                                         Parse(h, raw[FrameLen(raw)..]).stop)
  {
    hide GoodHeader;
  }

  // ---- encoded records ----

  /** A record with a magic and sizes the format can hold. */
  predicate Fits(r: Rec) {
    r.magic in {FRAME_MAGIC, AUTHORITY_MAGIC} && |r.body| < U32 && |r.stored| == DIGEST
  }

  function Spell(r: Rec): (b: Bytes)
    requires Fits(r)
    ensures |b| == HEADER + |r.body| + DIGEST
  {
    Header(r.magic, |r.body|) + r.body + r.stored
  }

  ghost predicate AllFit(rs: seq<Rec>) {
    forall k :: 0 <= k < |rs| ==> Fits(rs[k])
  }

  function SpellAll(rs: seq<Rec>): Bytes
    requires AllFit(rs)
  {
    if rs == [] then [] else Spell(rs[0]) + SpellAll(rs[1..])
  }

  /** The record with its digest judged. */
  function Judged(h: Hash, r: Rec): Rec {
    r.(ok := HashOf(h, r.body) == r.stored)
  }

  function JudgedAll(h: Hash, rs: seq<Rec>): (js: seq<Rec>)
    ensures |js| == |rs|
  {
    seq(|rs|, k requires 0 <= k < |rs| => Judged(h, rs[k]))
  }

  lemma HeaderRead(r: Rec, rest: Bytes)
    requires Fits(r)
    ensures var raw := Spell(r) + rest;
            GoodHeader(raw) && BodyLen(raw) == |r.body| && raw[..4] == r.magic
  {
    var raw := Spell(r) + rest;
    var n := |r.body|;
    assert raw[..4] == r.magic && raw[4..8] == ToBE(n) && raw[8..12] == ToBE(Inverse(n));
    FromTo(n);
    FromTo(Inverse(n));
  }

  lemma SpelledRead(h: Hash, r: Rec, rest: Bytes)
    requires Fits(r)
    ensures var raw := Spell(r) + rest;
            Parse(h, raw) == Parsed([Judged(h, r)] + Parse(h, rest).frames, Parse(h, rest).stop)
  {
    hide Parse, GoodHeader, Header;
    var raw := Spell(r) + rest;
    var n := |r.body|;
    HeaderRead(r, rest);
    ParseTurn(h, raw);
    Split(Spell(r), rest);
    Bounded(Header(r.magic, n), r.body, r.stored, rest);
  }

  lemma Bounded(a: Bytes, b: Bytes, c: Bytes, d: Bytes)
    ensures (a + b + c + d)[|a|..|a| + |b|] == b
    ensures (a + b + c + d)[|a| + |b|..|a| + |b| + |c|] == c
  {
  }

  /** Whatever follows spelled records is read after them. */
  lemma {:induction false} SpelledThen(h: Hash, rs: seq<Rec>, rest: Bytes)
    requires AllFit(rs)
    ensures Parse(h, SpellAll(rs) + rest) ==
            Parsed(JudgedAll(h, rs) + Parse(h, rest).frames, Parse(h, rest).stop)
  {
    hide Parse, Fits, Spell;
    if rs == [] {
      assert SpellAll(rs) + rest == rest;
      assert JudgedAll(h, rs) + Parse(h, rest).frames == Parse(h, rest).frames;
    } else {
      SpelledThen(h, rs[1..], rest);
      SpelledRead(h, rs[0], SpellAll(rs[1..]) + rest);
      Assoc(Spell(rs[0]), SpellAll(rs[1..]), rest);
      assert JudgedAll(h, rs) == [Judged(h, rs[0])] + JudgedAll(h, rs[1..]);
      Assoc([Judged(h, rs[0])], JudgedAll(h, rs[1..]), Parse(h, rest).frames);
    }
  }
}
