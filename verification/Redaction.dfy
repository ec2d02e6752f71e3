/** Redaction of a parsed document: secret string leaves become canary tokens
    (scripts/portability-corpus-gen.py, `redact_structured`). */
module Redaction {
  import opened Common

  /** A parsed JSON or YAML document; `Other` is any leaf that is no string. */
  datatype Doc =
    | Dict(fields: seq<Field>)
    | List(items: seq<Doc>)
    | Str(s: string)
    | Other(tag: int)

  datatype Field = Field(key: string, value: Doc)

  datatype Record = Record(file: string, key: string, canary: string)

  type Digest = d: string | |d| == 32 witness Repeat('0', 32)

  /** Any hash with a 32-character rendering, as the table of its values. */
  type Hash = imap<string, Digest>

  /** `hashlib.sha256(s.encode()).hexdigest()[:32]` */
  function DigestOf(h: Hash, s: string): (d: string)
    ensures |d| == 32
  {
    if s in h then h[s] else Repeat('0', 32)
  }

  /** What stays fixed during one walk. */
  datatype Walk = Walk(hash: Hash, rel: string, forceAll: bool)

  const MIN_LEN := 8
  const SUBSTRINGS := ["key", "token", "secret", "auth", "pass", "cred"]
  const ALLOWED := {"authorized", "auth_mode", "authmode", "keywords", "passthrough", "tokenizer", "max_tokens",
                    "maxtokens", "credential_pool_strategies"}

  function LowerChar(c: char): char {
    if 'A' <= c <= 'Z' then (c as int + 32) as char else c
  }

  function Lower(s: string): string {
    seq(|s|, k requires 0 <= k < |s| => LowerChar(s[k]))
  }

  predicate Holds(s: string, sub: string)
    requires sub != ""
  {
    Find(s, sub) < |s|
  }

  predicate SecretName(key: string) {
    var low := Lower(key);
    low !in ALLOWED && exists k :: 0 <= k < |SUBSTRINGS| && SUBSTRINGS[k] != "" && Holds(low, SUBSTRINGS[k])
  }

  predicate IsSecretKey(key: string, value: string) {
    |value| >= MIN_LEN && SecretName(key)
  }

  // ---- key paths ----

  function KeyPath(path: string, k: string): string {
    if path != "" then path + "." + k else k
  }

  function IndexPath(path: string, i: nat): string {
    path + "[" + Decimal(i) + "]"
  }

  /** `s.rsplit(".", 1)[-1]` */
  function AfterDot(s: string): string {
    if s == "" then "" else if s[|s| - 1] == '.' then "" else AfterDot(s[..|s| - 1]) + [s[|s| - 1]]
  }

  /** `s.split("[")[0]` */
  function BeforeBracket(s: string): string {
    if s == "" || s[0] == '[' then "" else [s[0]] + BeforeBracket(s[1..])
  }

  function LeafName(path: string): string {
    BeforeBracket(AfterDot(path))
  }

  predicate IsSecret(w: Walk, path: string, s: string) {
    IsSecretKey(LeafName(path), s) || (w.forceAll && |s| >= MIN_LEN)
  }

  function Canary(w: Walk, path: string): (c: string)
    ensures |c| == 39
  {
    "CANARY-" + DigestOf(w.hash, w.rel + "\U{00}" + path)
  }

  // ---- what the walk must produce ----

  function Redacted(w: Walk, d: Doc, path: string): Doc
    decreases d, 1
  {
    match d
    case Dict(fields) => Dict(RedactedFields(w, fields, path))
    case List(items) => List(RedactedItems(w, items, path, 0))
    case Str(s) => if IsSecret(w, path, s) then Str(Canary(w, path)) else d
    case Other(_) => d
  }

  function RedactedFields(w: Walk, fs: seq<Field>, path: string): seq<Field>
    decreases fs, 0
  {
    if fs == [] then []
    else [Field(fs[0].key, Redacted(w, fs[0].value, KeyPath(path, fs[0].key)))] + RedactedFields(w, fs[1..], path)
  }

  function RedactedItems(w: Walk, ds: seq<Doc>, path: string, i: nat): seq<Doc>
    decreases ds, 0
  {
    if ds == [] then [] else [Redacted(w, ds[0], IndexPath(path, i))] + RedactedItems(w, ds[1..], path, i + 1)
  }

  function Records(w: Walk, d: Doc, path: string): seq<Record>
    decreases d, 1
  {
    match d
    case Dict(fields) => FieldRecords(w, fields, path)
    case List(items) => ItemRecords(w, items, path, 0)
    case Str(s) => if IsSecret(w, path, s) then [Record(w.rel, path, Canary(w, path))] else []
    case Other(_) => []
  }

  function FieldRecords(w: Walk, fs: seq<Field>, path: string): seq<Record>
    decreases fs, 0
  {
    if fs == [] then [] else Records(w, fs[0].value, KeyPath(path, fs[0].key)) + FieldRecords(w, fs[1..], path)
  }

  function ItemRecords(w: Walk, ds: seq<Doc>, path: string, i: nat): seq<Record>
    decreases ds, 0
  {
    if ds == [] then [] else Records(w, ds[0], IndexPath(path, i)) + ItemRecords(w, ds[1..], path, i + 1)
  }

  // ---- the walk ----

  /** The shared list of canaries. */
  class Sink {
    var records: seq<Record>

    constructor ()
      ensures records == []
    {
      records := [];
    }
  }

  method Redact(w: Walk, d: Doc, path: string, sink: Sink) returns (r: Doc)
    modifies sink
    ensures r == Redacted(w, d, path)
    ensures sink.records == old(sink.records) + Records(w, d, path)
    decreases d, 1
  {
    match d {
      case Dict(fields) =>
        var fs := RedactFields(w, fields, path, sink);
        r := Dict(fs);
      case List(items) =>
        var ds := RedactItems(w, items, path, 0, sink);
        r := List(ds);
      case Str(s) =>
        if IsSecret(w, path, s) {
          var tok := Canary(w, path);
          sink.records := sink.records + [Record(w.rel, path, tok)];
          r := Str(tok);
        } else {
          r := d;
        }
      case Other(_) =>
        r := d;
    }
  }

  method RedactFields(w: Walk, fs: seq<Field>, path: string, sink: Sink) returns (r: seq<Field>)
    modifies sink
    ensures r == RedactedFields(w, fs, path)
    ensures sink.records == old(sink.records) + FieldRecords(w, fs, path)
    decreases fs, 0
  {
    hide Redacted, Records;
    ghost var before := sink.records;
    if fs == [] {
      r := [];
    } else {
      var v := Redact(w, fs[0].value, KeyPath(path, fs[0].key), sink);
      var rest := RedactFields(w, fs[1..], path, sink);
      r := [Field(fs[0].key, v)] + rest;
      Assoc(before, Records(w, fs[0].value, KeyPath(path, fs[0].key)), FieldRecords(w, fs[1..], path));
    }
  }

  method RedactItems(w: Walk, ds: seq<Doc>, path: string, i: nat, sink: Sink) returns (r: seq<Doc>)
    modifies sink
    ensures r == RedactedItems(w, ds, path, i)
    ensures sink.records == old(sink.records) + ItemRecords(w, ds, path, i)
    decreases ds, 0
  {
    hide Redacted, Records;
    ghost var before := sink.records;
    if ds == [] {
      r := [];
    } else {
      var v := Redact(w, ds[0], IndexPath(path, i), sink);
      var rest := RedactItems(w, ds[1..], path, i + 1, sink);
      r := [v] + rest;
      Assoc(before, Records(w, ds[0], IndexPath(path, i)), ItemRecords(w, ds[1..], path, i + 1));
    }
  }
}
