/** What redaction keeps, hides and records (scripts/portability-corpus-gen.py). */
module RedactionProof {
  import opened Common
  import opened Redaction

  // ---- leaves ----

  /** A leaf and the path it is found under. */
  datatype Leaf = Leaf(path: string, doc: Doc)

  function Leaves(d: Doc, path: string): seq<Leaf>
    decreases d, 1
  {
    match d
    case Dict(fields) => FieldLeaves(fields, path)
    case List(items) => ItemLeaves(items, path, 0)
    case _ => [Leaf(path, d)]
  }

  function FieldLeaves(fs: seq<Field>, path: string): seq<Leaf>
    decreases fs, 0
  {
    if fs == [] then [] else Leaves(fs[0].value, KeyPath(path, fs[0].key)) + FieldLeaves(fs[1..], path)
  }

  function ItemLeaves(ds: seq<Doc>, path: string, i: nat): seq<Leaf>
    decreases ds, 0
  {
    if ds == [] then [] else Leaves(ds[0], IndexPath(path, i)) + ItemLeaves(ds[1..], path, i + 1)
  }

  predicate SecretLeaf(w: Walk, l: Leaf) {
    l.doc.Str? && IsSecret(w, l.path, l.doc.s)
  }

  /** Same skeleton: keys, list lengths and kinds of leaves. */
  predicate SameShape(a: Doc, b: Doc)
    decreases a, 1
  {
    match (a, b)
    case (Dict(fs), Dict(gs)) => SameFields(fs, gs)
    case (List(ds), List(es)) => SameItems(ds, es)
    case (Str(_), Str(_)) => true
    case (Other(s), Other(t)) => s == t
    case _ => false
  }

  predicate SameFields(fs: seq<Field>, gs: seq<Field>)
    decreases fs, 0
  {
    if fs == [] then gs == []
    else gs != [] && fs[0].key == gs[0].key && SameShape(fs[0].value, gs[0].value) && SameFields(fs[1..], gs[1..])
  }

  predicate SameItems(ds: seq<Doc>, es: seq<Doc>)
    decreases ds, 0
  {
    if ds == [] then es == [] else es != [] && SameShape(ds[0], es[0]) && SameItems(ds[1..], es[1..])
  }

  /** What must become of the leaves, read off the list of leaves alone. */
  function RedactLeaf(w: Walk, l: Leaf): Leaf {
    if SecretLeaf(w, l) then l.(doc := Str(Canary(w, l.path))) else l
  }

  function RedactLeaves(w: Walk, ls: seq<Leaf>): seq<Leaf> {
    if ls == [] then [] else [RedactLeaf(w, ls[0])] + RedactLeaves(w, ls[1..])
  }

  function LeafRecords(w: Walk, ls: seq<Leaf>): seq<Record> {
    if ls == [] then []
    else
      (if SecretLeaf(w, ls[0]) then [Record(w.rel, ls[0].path, Canary(w, ls[0].path))] else []) +
      LeafRecords(w, ls[1..])
  }

  lemma {:induction false} LeavesConcat(w: Walk, a: seq<Leaf>, b: seq<Leaf>)
    ensures RedactLeaves(w, a + b) == RedactLeaves(w, a) + RedactLeaves(w, b)
    ensures LeafRecords(w, a + b) == LeafRecords(w, a) + LeafRecords(w, b)
  {
    hide RedactLeaf, SecretLeaf;
    if a == [] {
      assert a + b == b;
    } else {
      assert (a + b)[1..] == a[1..] + b;
      LeavesConcat(w, a[1..], b);
    }
  }

  /** The shape stays, every secret leaf becomes its canary, every other leaf stays, and
      there is exactly one record per replaced leaf, in order. */
  lemma {:induction false} RedactedLeaves(w: Walk, d: Doc, path: string)
    ensures SameShape(d, Redacted(w, d, path))
    ensures Leaves(Redacted(w, d, path), path) == RedactLeaves(w, Leaves(d, path))
    ensures Records(w, d, path) == LeafRecords(w, Leaves(d, path))
    decreases d, 1
  {
    match d
    case Dict(fields) => RedactedFieldLeaves(w, fields, path);
    case List(items) => RedactedItemLeaves(w, items, path, 0);
    case _ => ScalarLeaves(w, d, path);
  }

  lemma ScalarLeaves(w: Walk, d: Doc, path: string)
    requires !d.Dict? && !d.List?
    ensures SameShape(d, Redacted(w, d, path))
    ensures Leaves(Redacted(w, d, path), path) == RedactLeaves(w, Leaves(d, path))
    ensures Records(w, d, path) == LeafRecords(w, Leaves(d, path))
  {
    hide RedactLeaves, LeafRecords, Canary;
    OneLeaf(w, Leaf(path, d));
  }

  lemma OneLeaf(w: Walk, l: Leaf)
    ensures RedactLeaves(w, [l]) == [RedactLeaf(w, l)]
    ensures LeafRecords(w, [l]) == if SecretLeaf(w, l) then [Record(w.rel, l.path, Canary(w, l.path))] else []
  {
    assert [l][1..] == [];
  }

  lemma {:induction false} RedactedFieldLeaves(w: Walk, fs: seq<Field>, path: string)
    ensures SameFields(fs, RedactedFields(w, fs, path))
    ensures FieldLeaves(RedactedFields(w, fs, path), path) == RedactLeaves(w, FieldLeaves(fs, path))
    ensures FieldRecords(w, fs, path) == LeafRecords(w, FieldLeaves(fs, path))
    decreases fs, 0
  {
    hide Redacted, Records, Leaves, SameShape;
    if fs != [] {
      var p := KeyPath(path, fs[0].key);
      RedactedLeaves(w, fs[0].value, p);
      RedactedFieldLeaves(w, fs[1..], path);
      LeavesConcat(w, Leaves(fs[0].value, p), FieldLeaves(fs[1..], path));
      assert RedactedFields(w, fs, path)[1..] == RedactedFields(w, fs[1..], path);
    }
  }

  lemma {:induction false} RedactedItemLeaves(w: Walk, ds: seq<Doc>, path: string, i: nat)
    ensures SameItems(ds, RedactedItems(w, ds, path, i))
    ensures ItemLeaves(RedactedItems(w, ds, path, i), path, i) == RedactLeaves(w, ItemLeaves(ds, path, i))
    ensures ItemRecords(w, ds, path, i) == LeafRecords(w, ItemLeaves(ds, path, i))
    decreases ds, 0
  {
    hide Redacted, Records, Leaves, SameShape;
    if ds != [] {
      var p := IndexPath(path, i);
      RedactedLeaves(w, ds[0], p);
      RedactedItemLeaves(w, ds[1..], path, i + 1);
      LeavesConcat(w, Leaves(ds[0], p), ItemLeaves(ds[1..], path, i + 1));
      assert RedactedItems(w, ds, path, i)[1..] == RedactedItems(w, ds[1..], path, i + 1);
    }
  }

  function SecretsOf(w: Walk, ls: seq<Leaf>): set<int> {
    set k | 0 <= k < |ls| && SecretLeaf(w, ls[k])
  }

  lemma SecretsSnoc(w: Walk, ls: seq<Leaf>, l: Leaf)
    ensures |SecretsOf(w, ls + [l])| == |SecretsOf(w, ls)| + if SecretLeaf(w, l) then 1 else 0
  {
    hide SecretLeaf;
    assert SecretsOf(w, ls + [l]) == SecretsOf(w, ls) + if SecretLeaf(w, l) then {|ls|} else {};
  }

  /** As many records as leaves replaced. */
  lemma {:induction false} OneRecordEach(w: Walk, ls: seq<Leaf>)
    ensures |LeafRecords(w, ls)| == |SecretsOf(w, ls)|
  {
    hide SecretLeaf, SecretsOf;
    if ls == [] {
      NoSecrets(w);
    } else {
      var n := |ls| - 1;
      var front := ls[..n];
      assert ls == front + [ls[n]];
      OneRecordEach(w, front);
      LeavesConcat(w, front, [ls[n]]);
      SecretsSnoc(w, front, ls[n]);
      assert LeafRecords(w, [ls[n]][1..]) == [];
    }
  }

  lemma NoSecrets(w: Walk)
    ensures SecretsOf(w, []) == {}
  {
  }

  // ---- twice is once ----

  /** A canary is as secret as what it replaced. */
  lemma CanaryIsSecret(w: Walk, path: string, s: string)
    requires IsSecret(w, path, s)
    ensures IsSecret(w, path, Canary(w, path))
  {
    hide SecretName, LeafName;
  }

  lemma {:induction false} RedactTwice(w: Walk, d: Doc, path: string)
    ensures Redacted(w, Redacted(w, d, path), path) == Redacted(w, d, path)
    ensures Records(w, Redacted(w, d, path), path) == Records(w, d, path)
    decreases d, 1
  {
    hide IsSecret;
    match d
    case Dict(fields) => RedactFieldsTwice(w, fields, path);
    case List(items) => RedactItemsTwice(w, items, path, 0);
    case Str(s) =>
      if IsSecret(w, path, s) {
        CanaryIsSecret(w, path, s);
      }
    case Other(_) =>
  }

  lemma {:induction false} RedactFieldsTwice(w: Walk, fs: seq<Field>, path: string)
    ensures RedactedFields(w, RedactedFields(w, fs, path), path) == RedactedFields(w, fs, path)
    ensures FieldRecords(w, RedactedFields(w, fs, path), path) == FieldRecords(w, fs, path)
    decreases fs, 0
  {
    hide Redacted, Records;
    if fs != [] {
      RedactTwice(w, fs[0].value, KeyPath(path, fs[0].key));
      RedactFieldsTwice(w, fs[1..], path);
      assert RedactedFields(w, fs, path)[1..] == RedactedFields(w, fs[1..], path);
    }
  }

  lemma {:induction false} RedactItemsTwice(w: Walk, ds: seq<Doc>, path: string, i: nat)
    ensures RedactedItems(w, RedactedItems(w, ds, path, i), path, i) == RedactedItems(w, ds, path, i)
    ensures ItemRecords(w, RedactedItems(w, ds, path, i), path, i) == ItemRecords(w, ds, path, i)
    decreases ds, 0
  {
    hide Redacted, Records;
    if ds != [] {
      RedactTwice(w, ds[0], IndexPath(path, i));
      RedactItemsTwice(w, ds[1..], path, i + 1);
      assert RedactedItems(w, ds, path, i)[1..] == RedactedItems(w, ds[1..], path, i + 1);
    }
  }

  // ---- non-interference ----

  /** `a` and `b` differ at most in the text of leaves that are secret in both. */
  predicate DifferAtSecrets(w: Walk, a: Doc, b: Doc, path: string)
    decreases a, 1
  {
    match (a, b)
    case (Dict(fs), Dict(gs)) => FieldsDiffer(w, fs, gs, path)
    case (List(ds), List(es)) => ItemsDiffer(w, ds, es, path, 0)
    case (Str(s), Str(t)) => s == t || (IsSecret(w, path, s) && IsSecret(w, path, t))
    case (Other(s), Other(t)) => s == t
    case _ => false
  }

  predicate FieldsDiffer(w: Walk, fs: seq<Field>, gs: seq<Field>, path: string)
    decreases fs, 0
  {
    if fs == [] then gs == []
    else
      gs != [] && fs[0].key == gs[0].key &&
      DifferAtSecrets(w, fs[0].value, gs[0].value, KeyPath(path, fs[0].key)) && FieldsDiffer(w, fs[1..], gs[1..], path)
  }

  predicate ItemsDiffer(w: Walk, ds: seq<Doc>, es: seq<Doc>, path: string, i: nat)
    decreases ds, 0
  {
    if ds == [] then es == []
    else
      es != [] && DifferAtSecrets(w, ds[0], es[0], IndexPath(path, i)) && ItemsDiffer(w, ds[1..], es[1..], path, i + 1)
  }

  /** Outputs agree exactly when the inputs differ at most at secret leaves, and then the
      records agree too: the output tells nothing of a secret but that it is there. */
  lemma {:induction false} NonInterference(w: Walk, a: Doc, b: Doc, path: string)
    ensures Redacted(w, a, path) == Redacted(w, b, path) <==> DifferAtSecrets(w, a, b, path)
    ensures DifferAtSecrets(w, a, b, path) ==> Records(w, a, path) == Records(w, b, path)
    decreases a, 1
  {
    hide IsSecret;
    match (a, b)
    case (Dict(fs), Dict(gs)) => FieldsNonInterference(w, fs, gs, path);
    case (List(ds), List(es)) => ItemsNonInterference(w, ds, es, path, 0);
    case (Str(s), Str(t)) =>
      if IsSecret(w, path, s) {
        CanaryIsSecret(w, path, s);
      }
      if IsSecret(w, path, t) {
        CanaryIsSecret(w, path, t);
      }
    case _ =>
  }

  lemma {:induction false} FieldsNonInterference(w: Walk, fs: seq<Field>, gs: seq<Field>, path: string)
    ensures RedactedFields(w, fs, path) == RedactedFields(w, gs, path) <==> FieldsDiffer(w, fs, gs, path)
    ensures FieldsDiffer(w, fs, gs, path) ==> FieldRecords(w, fs, path) == FieldRecords(w, gs, path)
    decreases fs, 0
  {
    hide Redacted, Records, DifferAtSecrets;
    if fs != [] && gs != [] {
      var r, q := RedactedFields(w, fs, path), RedactedFields(w, gs, path);
      NonInterference(w, fs[0].value, gs[0].value, KeyPath(path, fs[0].key));
      FieldsNonInterference(w, fs[1..], gs[1..], path);
      assert r[0].key == fs[0].key && q[0].key == gs[0].key;
      assert r[1..] == RedactedFields(w, fs[1..], path) && q[1..] == RedactedFields(w, gs[1..], path);
      assert r == q <==> r[0] == q[0] && r[1..] == q[1..] by {
        assert r == [r[0]] + r[1..] && q == [q[0]] + q[1..];
      }
    }
  }

  lemma {:induction false} ItemsNonInterference(w: Walk, ds: seq<Doc>, es: seq<Doc>, path: string, i: nat)
    ensures RedactedItems(w, ds, path, i) == RedactedItems(w, es, path, i) <==> ItemsDiffer(w, ds, es, path, i)
    ensures ItemsDiffer(w, ds, es, path, i) ==> ItemRecords(w, ds, path, i) == ItemRecords(w, es, path, i)
    decreases ds, 0
  {
    hide Redacted, Records, DifferAtSecrets;
    if ds != [] && es != [] {
      var r, q := RedactedItems(w, ds, path, i), RedactedItems(w, es, path, i);
      NonInterference(w, ds[0], es[0], IndexPath(path, i));
      ItemsNonInterference(w, ds[1..], es[1..], path, i + 1);
      assert r[1..] == RedactedItems(w, ds[1..], path, i + 1) && q[1..] == RedactedItems(w, es[1..], path, i + 1);
      assert r == q <==> r[0] == q[0] && r[1..] == q[1..] by {
        assert r == [r[0]] + r[1..] && q == [q[0]] + q[1..];
      }
    }
  }

  // ---- which name a leaf is classified by ----

  lemma {:induction false} AfterDotOf(front: string, k: string)
    requires '.' !in k
    ensures AfterDot(front + k) == AfterDot(front) + k
  {
    if k == "" {
      assert front + k == front && AfterDot(front) + k == AfterDot(front);
    } else {
      var n := |k| - 1;
      AfterDotOf(front, k[..n]);
      var s := front + k;
      assert s[..|s| - 1] == front + k[..n] && s[|s| - 1] == k[n];
      assert k == k[..n] + [k[n]];
    }
  }

  lemma AfterDotIs(front: string, k: string)
    ensures AfterDot(front + "." + k) == AfterDot(k)
    decreases |k|
  {
    if k == "" {
      assert front + "." + k == front + ".";
    } else {
      var rest := k[..|k| - 1];
      var s := front + "." + k;
      assert s[..|s| - 1] == front + "." + rest && s[|s| - 1] == k[|k| - 1];
      AfterDotIs(front, rest);
    }
  }

  lemma {:induction false} AfterDotShort(k: string)
    ensures if '.' in k then |AfterDot(k)| < |k| else AfterDot(k) == k
  {
    if k != "" {
      var rest, c := k[..|k| - 1], k[|k| - 1];
      assert k == rest + [c];
      AfterDotShort(rest);
    }
  }

  lemma {:induction false} BeforeBracketShort(k: string)
    ensures if '[' in k then |BeforeBracket(k)| < |k| else BeforeBracket(k) == k
  {
    if k != "" {
      assert k == [k[0]] + k[1..];
      BeforeBracketShort(k[1..]);
    }
  }

  /** A leaf under a key is classified by that key exactly when the key holds neither separator;
      otherwise by what is left of it, wherever it stands. */
  lemma LeafUnderKey(path: string, k: string)
    ensures LeafName(KeyPath(path, k)) == LeafName(k)
    ensures LeafName(KeyPath(path, k)) == k <==> '.' !in k && '[' !in k
  {
    if path != "" {
      AfterDotIs(path, k);
    }
    AfterDotShort(k);
    BeforeBracketShort(AfterDot(k));
  }

  /** Any path: behind the last dot, in front of the first bracket from there. */
  lemma LeafNameIs(front: string, name: string, tail: string)
    requires '.' !in name + tail && '[' !in name && (tail == "" || tail[0] == '[')
    ensures LeafName(front + "." + (name + tail)) == name
    ensures LeafName(name + tail) == name
  {
    AfterDotIs(front, name + tail);
    AfterDotShort(name + tail);
    BeforeBracketShort(name);
    if tail == "" {
      assert name + tail == name;
    } else {
      BracketStops(name, tail);
    }
  }

  /** The classification, spelled out: eight characters or more under a name that holds one of six words,
      whatever the case, and is none of nine. */
  lemma SecretSays(w: Walk, path: string, s: string)
    ensures IsSecret(w, path, s) <==>
              |s| >= 8 && (w.forceAll || (!Allowed(Lower(LeafName(path))) && HasSecretWord(Lower(LeafName(path)))))
  {
    hide LeafName, Lower, Allowed, HasSecretWord;
    var low := Lower(LeafName(path));
    AllowedAre(low);
    WordsAre(low);
  }

  const SECRET_WORDS := {"key", "token", "secret", "auth", "pass", "cred"}

  ghost predicate HasSecretWord(name: string) {
    exists word :: word in SECRET_WORDS && PartOf(word, name)
  }

  lemma AllowedAre(name: string)
    ensures name in ALLOWED <==> Allowed(name)
  {
  }

  lemma WordsAre(name: string)
    ensures HasSecretWord(name) <==>
              exists k :: 0 <= k < |SUBSTRINGS| && SUBSTRINGS[k] != "" && Holds(name, SUBSTRINGS[k])
  {
    hide Find, PartOf;
    forall word | word in SECRET_WORDS ensures exists k :: 0 <= k < |SUBSTRINGS| && SUBSTRINGS[k] == word {
      EachWord(word);
    }
    forall word | word != "" ensures Holds(name, word) <==> PartOf(word, name) {
      FindSays(name, word);
    }
    assert forall k :: 0 <= k < |SUBSTRINGS| ==> SUBSTRINGS[k] in SECRET_WORDS;
    assert forall word :: word in SECRET_WORDS ==> word != "";
    if word :| word in SECRET_WORDS && PartOf(word, name) {
      var k :| 0 <= k < |SUBSTRINGS| && SUBSTRINGS[k] == word;
      assert Holds(name, SUBSTRINGS[k]);
    }
  }

  lemma EachWord(word: string)
    requires word in SECRET_WORDS
    ensures exists k :: 0 <= k < |SUBSTRINGS| && SUBSTRINGS[k] == word
  {
    assert SUBSTRINGS[0] == "key" && SUBSTRINGS[1] == "token" && SUBSTRINGS[2] == "secret";
    assert SUBSTRINGS[3] == "auth" && SUBSTRINGS[4] == "pass" && SUBSTRINGS[5] == "cred";
  }

  predicate Allowed(name: string) {
    name == "authorized" || name == "auth_mode" || name == "authmode" || name == "keywords" ||
    name == "passthrough" || name == "tokenizer" || name == "max_tokens" || name == "maxtokens" ||
    name == "credential_pool_strategies"
  }

  /** Only A to Z change, to a to z. */
  lemma LowerSays(s: string, k: nat)
    requires k < |s|
    ensures |Lower(s)| == |s|
    ensures var from, to := "ABCDEFGHIJKLMNOPQRSTUVWXYZ", "abcdefghijklmnopqrstuvwxyz";
            if s[k] in from then exists i :: 0 <= i < 26 && s[k] == from[i] && Lower(s)[k] == to[i]
            else Lower(s)[k] == s[k]
  {
    var from, to := "ABCDEFGHIJKLMNOPQRSTUVWXYZ", "abcdefghijklmnopqrstuvwxyz";
    assert forall i :: 0 <= i < 26 ==> from[i] == ('A' as int + i) as char && to[i] == ('a' as int + i) as char;
    assert Lower(s)[k] == LowerChar(s[k]);
    hide Lower;
    if 'A' <= s[k] <= 'Z' {
      var i := s[k] as int - 'A' as int;
      assert from[i] == s[k] && to[i] == Lower(s)[k];
    }
  }

  /** So a secret under a versioned token is left in place. */
  lemma VersionedTokenStays(w: Walk)
    requires !w.forceAll
    ensures IsSecretKey("token", "12345678")
    ensures var d := Dict([Field("token.v1", Str("12345678"))]); Redacted(w, d, "") == d && Records(w, d, "") == []
  {
    TokenIsSecret();
    VersionName();
    ShortNames("v1");
    hide LeafName, SecretName;
    KeptField(w, Field("token.v1", Str("12345678")));
  }

  lemma VersionName()
    ensures LeafName("token.v1") == "v1"
  {
    AfterDotIs("token", "v1");
    AfterDotShort("v1");
    BeforeBracketShort("v1");
    hide AfterDot, BeforeBracket;
    assert "token" + "." + "v1" == "token.v1";
  }

  lemma KeptField(w: Walk, f: Field)
    requires f.value.Str? && !IsSecret(w, f.key, f.value.s)
    ensures Redacted(w, Dict([f]), "") == Dict([f]) && Records(w, Dict([f]), "") == []
  {
    hide IsSecret;
    assert [f][1..] == [];
    assert KeyPath("", f.key) == f.key;
    assert RedactedFields(w, [], "") == [] && FieldRecords(w, [], "") == [];
    assert Redacted(w, f.value, f.key) == f.value && Records(w, f.value, f.key) == [];
    assert RedactedFields(w, [f], "") == [Field(f.key, f.value)] + [];
    assert FieldRecords(w, [f], "") == [] + [];
  }

  lemma TokenIsSecret()
    ensures SecretName("token")
  {
    assert Lower("token") == "token";
    assert SUBSTRINGS[1] == "token" && "token" <= "token"[0..];
    FindIs("token", "token", 0);
    assert Holds("token", SUBSTRINGS[1]);
  }

  /** No name of two characters holds a secret word. */
  lemma ShortNames(k: string)
    requires |k| <= 2
    ensures !SecretName(k)
  {
    forall n | 0 <= n < |SUBSTRINGS| && SUBSTRINGS[n] != "" ensures !Holds(Lower(k), SUBSTRINGS[n]) {
      assert |SUBSTRINGS[n]| >= 3;
    }
  }

  /** ... and so is a leaf in a list under it. */
  lemma LeafUnderIndex(path: string, i: nat)
    ensures LeafName(IndexPath(path, i)) == LeafName(path)
  {
    hide AfterDot, BeforeBracket, Decimal;
    var tail := "[" + Decimal(i) + "]";
    NoDotInIndex(i);
    assert IndexPath(path, i) == path + tail;
    AfterDotOf(path, tail);
    BracketStops(AfterDot(path), tail);
  }

  lemma NoDotInIndex(i: nat)
    ensures '.' !in "[" + Decimal(i) + "]"
  {
    var d := Decimal(i);
    assert forall k :: 0 <= k < |d| ==> d[k] != '.';
  }

  lemma {:induction false} BracketStops(s: string, tail: string)
    requires tail != "" && tail[0] == '['
    ensures BeforeBracket(s + tail) == BeforeBracket(s)
  {
    if s == "" {
      assert s + tail == tail;
    } else if s[0] != '[' {
      assert (s + tail)[1..] == s[1..] + tail;
      BracketStops(s[1..], tail);
    }
  }

  // ---- distinct sites, distinct key paths ----

  datatype Step = Key(k: string) | Index(i: nat)

  function StepOn(path: string, s: Step): string {
    match s
    case Key(k) => KeyPath(path, k)
    case Index(i) => IndexPath(path, i)
  }

  /** The key path of a site, built as the walk builds it. */
  function SitePath(path: string, steps: seq<Step>): string
    decreases |steps|
  {
    if steps == [] then path else SitePath(StepOn(path, steps[0]), steps[1..])
  }

  /** What the path of a list position ends in. */
  function Bracketed(i: nat): string {
    "[" + Decimal(i) + "]"
  }

  ghost predicate EndsInPosition(k: string) {
    exists i: nat :: Ends(k, Bracketed(i))
  }

  predicate Ends(s: string, tail: string) {
    |tail| <= |s| && s[|s| - |tail|..] == tail
  }

  /** A key that is not empty, holds no dot and does not end in what looks like a list position. */
  ghost predicate Apart(k: string) {
    k != "" && '.' !in k && !EndsInPosition(k)
  }

  ghost predicate ApartSteps(steps: seq<Step>) {
    forall j :: 0 <= j < |steps| ==> steps[j].Key? ==> Apart(steps[j].k)
  }

  lemma {:induction false} SitePathSnoc(path: string, steps: seq<Step>, s: Step)
    ensures SitePath(path, steps + [s]) == StepOn(SitePath(path, steps), s)
    decreases |steps|
  {
    hide StepOn;
    var all := steps + [s];
    if steps == [] {
      assert all == [s] && [s][1..] == [];
    } else {
      assert all[0] == steps[0] && all[1..] == steps[1..] + [s];
      SitePathSnoc(StepOn(path, steps[0]), steps[1..], s);
    }
  }

  /** A step that is not an empty key leaves no empty path. */
  lemma StepNotEmpty(path: string, s: Step)
    requires s.Key? ==> s.k != ""
    ensures StepOn(path, s) != ""
  {
  }

  lemma BracketedPlain(i: nat)
    ensures var b := Bracketed(i); |b| >= 3 && '.' !in b && b[0] == '[' && forall k :: 0 < k < |b| ==> b[k] != '['
  {
    hide Decimal;
    var d := Decimal(i);
    assert forall k :: 0 < k <= |d| ==> Bracketed(i)[k] == d[k - 1];
  }

  /** The last position of a path can be read off it. */
  lemma LastPosition(p: string, i: nat, q: string, j: nat)
    requires p + Bracketed(i) == q + Bracketed(j)
    ensures p == q && i == j
  {
    hide Bracketed;
    var b, c, s := Bracketed(i), Bracketed(j), p + Bracketed(i);
    BracketedPlain(i);
    BracketedPlain(j);
    assert s[|p|] == '[' && s[|q|] == '[';
    assert forall k :: |p| < k < |s| ==> s[k] == b[k - |p|];
    assert forall k :: |q| < k < |s| ==> s[k] == c[k - |q|];
    assert |p| == |q|;
    Split(p, b);
    Split(q, c);
    BracketedOnce(i, j);
  }

  lemma BracketedOnce(i: nat, j: nat)
    requires Bracketed(i) == Bracketed(j)
    ensures i == j
  {
    hide Decimal;
    var d, e := Decimal(i), Decimal(j);
    assert Bracketed(i)[1..|d| + 1] == d && Bracketed(j)[1..|e| + 1] == e;
    assert |d| == |e|;
    ParseDecimal(i);
    ParseDecimal(j);
  }

  /** So can its last key. */
  lemma LastKey(p: string, k: string, q: string, l: string)
    requires '.' !in k && '.' !in l && p + "." + k == q + "." + l
    ensures p == q && k == l
  {
    var s := p + "." + k;
    assert s[|p|] == '.' && s[|q|] == '.';
    assert forall n :: |p| < n < |s| ==> s[n] == k[n - |p| - 1];
    assert forall n :: |q| < n < |s| ==> s[n] == l[n - |q| - 1];
    assert |p| == |q|;
    assert s[..|p|] == p && s[..|q|] == q && s[|p| + 1..] == k && s[|q| + 1..] == l;
  }

  /** A path that ends in a position ends in no key that is apart. */
  lemma PositionIsNoKey(p: string, i: nat, q: string, k: string)
    requires Apart(k)
    ensures p + Bracketed(i) != KeyPath(q, k)
  {
    hide Bracketed;
    BracketedPlain(i);
    var b := Bracketed(i);
    Split(p, b);
    KeyEndsPath(q, k);
    if p + b == KeyPath(q, k) {
      TwoEnds(p + b, b, k);
    }
  }

  lemma KeyEndsPath(q: string, k: string)
    ensures var s := KeyPath(q, k); Ends(s, k) && (|k| < |s| ==> s[|s| - |k| - 1] == '.')
  {
  }

  /** Of two ends of one text the shorter ends the longer, or a character in front of it is in the longer. */
  lemma TwoEnds(s: string, b: string, k: string)
    requires Ends(s, b) && Ends(s, k)
    ensures if |b| <= |k| then Ends(k, b) else s[|s| - |k| - 1] in b
  {
    if |b| <= |k| {
      Tail(s, |s| - |k|, |k| - |b|);
    } else {
      assert b[|b| - |k| - 1] == s[|s| - |k| - 1];
    }
  }

  lemma KeyPathsDiffer(p: string, k: string, q: string, l: string)
    requires '.' !in k && '.' !in l && KeyPath(p, k) == KeyPath(q, l)
    ensures p == q && k == l
  {
    HoldsDot(p, k);
    HoldsDot(q, l);
    if p != "" && q != "" {
      LastKey(p, k, q, l);
    }
  }

  lemma HoldsDot(p: string, k: string)
    ensures '.' in p + "." + k
  {
    assert (p + "." + k)[|p|] == '.';
  }

  /** The last step and the path in front of it can be read off a path. */
  lemma LastStep(p: string, s: Step, q: string, t: Step)
    requires (s.Key? ==> Apart(s.k)) && (t.Key? ==> Apart(t.k)) && StepOn(p, s) == StepOn(q, t)
    ensures p == q && s == t
  {
    hide Decimal, EndsInPosition;
    match (s, t)
    case (Key(k), Key(l)) => KeyPathsDiffer(p, k, q, l);
    case (Index(i), Index(j)) =>
      IndexSpelled(p, i);
      IndexSpelled(q, j);
      LastPosition(p, i, q, j);
    case (Index(i), Key(l)) =>
      IndexSpelled(p, i);
      PositionIsNoKey(p, i, q, l);
    case (Key(k), Index(j)) =>
      IndexSpelled(q, j);
      PositionIsNoKey(q, j, p, k);
  }

  lemma IndexSpelled(path: string, i: nat)
    ensures IndexPath(path, i) == path + Bracketed(i)
  {
    hide Decimal;
    Assoc(path, "[", Decimal(i));
    Assoc(path, "[" + Decimal(i), "]");
  }

  /** Different sites of a document whose keys are apart have different key paths. */
  lemma {:induction false} SitesDiffer(a: seq<Step>, b: seq<Step>)
    requires ApartSteps(a) && ApartSteps(b) && SitePath("", a) == SitePath("", b)
    ensures a == b
    decreases |a|
  {
    hide StepOn, Apart, SitePath;
    SitePathEnds("");
    if a != [] && b != [] {
      var c, d, s, t := a[..|a| - 1], b[..|b| - 1], a[|a| - 1], b[|b| - 1];
      assert a == c + [s] && b == d + [t];
      SitePathSnoc("", c, s);
      SitePathSnoc("", d, t);
      LastStep(SitePath("", c), s, SitePath("", d), t);
      SitesDiffer(c, d);
    } else if a != [] {
      PathNotEmpty(a);
    } else if b != [] {
      PathNotEmpty(b);
    }
  }

  lemma PathNotEmpty(a: seq<Step>)
    requires ApartSteps(a) && a != []
    ensures SitePath("", a) != ""
  {
    hide StepOn, SitePath, EndsInPosition;
    var c, s := a[..|a| - 1], a[|a| - 1];
    assert a == c + [s];
    SitePathSnoc("", c, s);
    StepNotEmpty(SitePath("", c), s);
  }

  lemma SitePathEnds(path: string)
    ensures SitePath(path, []) == path
  {
  }

  lemma OneStepOn(path: string, s: Step)
    ensures SitePath(path, [s]) == StepOn(path, s)
  {
    assert [s][1..] == [];
  }

  lemma TwoStepsOn(path: string, s: Step, t: Step)
    ensures SitePath(path, [s, t]) == StepOn(StepOn(path, s), t)
  {
    hide StepOn;
    OneStepOn(path, s);
    SitePathSnoc(path, [s], t);
    assert [s] + [t] == [s, t];
  }

  // ---- distinct sites, distinct canaries ----

  /** The string `s` stands in the document at the end of these steps. */
  predicate LeafAt(d: Doc, steps: seq<Step>, s: string)
    decreases |steps|
  {
    if steps == [] then d == Str(s)
    else
      match steps[0]
      case Key(k) =>
        d.Dict? && exists i :: 0 <= i < |d.fields| && d.fields[i].key == k && LeafAt(d.fields[i].value, steps[1..], s)
      case Index(i) => d.List? && i < |d.items| && LeafAt(d.items[i], steps[1..], s)
  }

  lemma {:induction false} FieldAt(w: Walk, fs: seq<Field>, path: string, i: nat)
    requires i < |fs|
    ensures |RedactedFields(w, fs, path)| == |fs|
    ensures RedactedFields(w, fs, path)[i] == Field(fs[i].key, Redacted(w, fs[i].value, KeyPath(path, fs[i].key)))
    ensures forall r :: r in Records(w, fs[i].value, KeyPath(path, fs[i].key)) ==> r in FieldRecords(w, fs, path)
    decreases |fs|
  {
    hide Redacted, Records, KeyPath;
    if |fs| > 1 {
      FieldAt(w, fs[1..], path, if i > 0 then i - 1 else 0);
    } else {
      assert fs[1..] == [];
    }
  }

  lemma {:induction false} ItemAt(w: Walk, ds: seq<Doc>, path: string, first: nat, i: nat)
    requires i < |ds|
    ensures |RedactedItems(w, ds, path, first)| == |ds|
    ensures RedactedItems(w, ds, path, first)[i] == Redacted(w, ds[i], IndexPath(path, first + i))
    ensures forall r :: r in Records(w, ds[i], IndexPath(path, first + i)) ==> r in ItemRecords(w, ds, path, first)
    decreases |ds|
  {
    hide Redacted, Records, IndexPath;
    if |ds| > 1 {
      ItemAt(w, ds[1..], path, first + 1, if i > 0 then i - 1 else 0);
    } else {
      assert ds[1..] == [];
    }
  }

  /** A secret at a site is replaced by the site's canary, and the canary is recorded under the site's path. */
  lemma {:induction false} SecretIsReplaced(w: Walk, d: Doc, path: string, steps: seq<Step>, s: string)
    requires LeafAt(d, steps, s) && IsSecret(w, SitePath(path, steps), s)
    ensures var p := SitePath(path, steps);
            LeafAt(Redacted(w, d, path), steps, Canary(w, p)) && Record(w.rel, p, Canary(w, p)) in Records(w, d, path)
    decreases |steps|
  {
    hide IsSecret, Canary, KeyPath, IndexPath;
    if steps != [] {
      var rest := steps[1..];
      match steps[0] {
        case Key(k) =>
          var i :| 0 <= i < |d.fields| && d.fields[i].key == k && LeafAt(d.fields[i].value, rest, s);
          SecretIsReplaced(w, d.fields[i].value, KeyPath(path, k), rest, s);
          FieldAt(w, d.fields, path, i);
        case Index(i) =>
          SecretIsReplaced(w, d.items[i], IndexPath(path, i), rest, s);
          ItemAt(w, d.items, path, 0, i);
      }
    }
  }

  /** A text that is no secret at its site stays there. */
  lemma {:induction false} OthersStay(w: Walk, d: Doc, path: string, steps: seq<Step>, s: string)
    requires LeafAt(d, steps, s) && !IsSecret(w, SitePath(path, steps), s)
    ensures LeafAt(Redacted(w, d, path), steps, s)
    decreases |steps|
  {
    hide IsSecret, Canary, KeyPath, IndexPath;
    if steps != [] {
      var rest := steps[1..];
      match steps[0] {
        case Key(k) =>
          var i :| 0 <= i < |d.fields| && d.fields[i].key == k && LeafAt(d.fields[i].value, rest, s);
          OthersStay(w, d.fields[i].value, KeyPath(path, k), rest, s);
          FieldAt(w, d.fields, path, i);
        case Index(i) =>
          OthersStay(w, d.items[i], IndexPath(path, i), rest, s);
          ItemAt(w, d.items, path, 0, i);
      }
    }
  }

  /** The hash is known on both texts and tells them apart. */
  predicate TellsApart(h: Hash, a: string, b: string) {
    a in h && b in h && (a == b || h[a] != h[b])
  }

  /** Relative path, NUL, key path: what identifies a site among all files. */
  function SiteText(rel: string, path: string): string {
    rel + "\U{00}" + path
  }

  lemma SiteTextsDiffer(rel: string, p: string, rel': string, q: string)
    requires '\U{00}' !in rel && '\U{00}' !in rel' && SiteText(rel, p) == SiteText(rel', q)
    ensures rel == rel' && p == q
  {
    var s, n, m := SiteText(rel, p), |rel|, |rel'|;
    assert s[n] == '\U{00}' && s[m] == '\U{00}';
    assert forall k :: 0 <= k < n ==> s[k] == rel[k];
    assert forall k :: 0 <= k < m ==> s[k] == rel'[k];
    assert n == m;
    assert s[..n] == rel && s[..m] == rel' && s[n + 1..] == p && s[m + 1..] == q;
  }

  /** Two sites share a canary only when file and key path are the same. */
  lemma CanaryNamesSite(w: Walk, p: string, v: Walk, q: string)
    requires w.hash == v.hash && '\U{00}' !in w.rel && '\U{00}' !in v.rel
    requires TellsApart(w.hash, SiteText(w.rel, p), SiteText(v.rel, q))
    ensures Canary(w, p) == Canary(v, q) <==> w.rel == v.rel && p == q
    ensures "CANARY-" <= Canary(w, p)
  {
    if Canary(w, p) == Canary(v, q) {
      assert Canary(w, p)[7..] == DigestOf(w.hash, SiteText(w.rel, p));
      assert Canary(v, q)[7..] == DigestOf(v.hash, SiteText(v.rel, q));
      SiteTextsDiffer(w.rel, p, v.rel, q);
    }
  }

  /** Secrets at different sites, of one document or of two files, carry different canaries in the redacted
      documents and in the records, the keys on the way to them being apart. */
  lemma CanariesDiffer(w: Walk, d: Doc, a: seq<Step>, s: string, v: Walk, e: Doc, b: seq<Step>, t: string)
    returns (c: string, c': string)
    requires LeafAt(d, a, s) && IsSecret(w, SitePath("", a), s) && ApartSteps(a)
    requires LeafAt(e, b, t) && IsSecret(v, SitePath("", b), t) && ApartSteps(b)
    requires w.hash == v.hash && '\U{00}' !in w.rel && '\U{00}' !in v.rel
    requires TellsApart(w.hash, SiteText(w.rel, SitePath("", a)), SiteText(v.rel, SitePath("", b)))
    ensures LeafAt(Redacted(w, d, ""), a, c) && Record(w.rel, SitePath("", a), c) in Records(w, d, "")
    ensures LeafAt(Redacted(v, e, ""), b, c') && Record(v.rel, SitePath("", b), c') in Records(v, e, "")
    ensures c == c' <==> w.rel == v.rel && a == b
  {
    hide LeafAt, IsSecret, Canary, SitePath, Redacted, Records, ApartSteps;
    var p, q := SitePath("", a), SitePath("", b);
    c, c' := Canary(w, p), Canary(v, q);
    SecretIsReplaced(w, d, "", a, s);
    SecretIsReplaced(v, e, "", b, t);
    CanaryNamesSite(w, p, v, q);
    if p == q {
      SitesDiffer(a, b);
    }
  }

  /** A key with a dot can name the site of another: the two leaves get one canary. */
  lemma DottedKeysCollide()
    ensures SitePath("", [Key("a.token")]) == SitePath("", [Key("a"), Key("token")])
    ensures var d := Dict([Field("a.token", Str("12345678")), Field("a", Dict([Field("token", Str("abcdefgh"))]))]);
            |Leaves(d, "")| == 2 && Leaves(d, "")[0].path == Leaves(d, "")[1].path
  {
    var inner := [Field("token", Str("abcdefgh"))];
    var fields := [Field("a.token", Str("12345678")), Field("a", Dict(inner))];
    assert fields[1..] == [Field("a", Dict(inner))] && fields[1..][1..] == [] && inner[1..] == [];
    assert KeyPath("a", "token") == "a.token" && KeyPath("", "a") == "a";
    assert Leaves(Str("abcdefgh"), "a.token") == [Leaf("a.token", Str("abcdefgh"))];
    assert FieldLeaves(inner[1..], "a") == [];
    assert FieldLeaves(inner, "a") == [Leaf("a.token", Str("abcdefgh"))];
    assert FieldLeaves(fields[1..], "") == [Leaf("a.token", Str("abcdefgh"))];
    assert FieldLeaves(fields, "") == [Leaf("a.token", Str("12345678")), Leaf("a.token", Str("abcdefgh"))];
    var steps := [Key("a"), Key("token")];
    assert steps[1..] == [Key("token")] && steps[1..][1..] == [];
    assert [Key("a.token")][1..] == [];
  }

  /** So does an empty key, which adds nothing to the path at the root ... */
  lemma EmptyKeysCollide()
    ensures SitePath("", [Key(""), Key("a")]) == SitePath("", [Key("a")])
  {
    TwoStepsOn("", Key(""), Key("a"));
    OneStepOn("", Key("a"));
  }

  /** ... and a key that ends in what looks like a list position, or is nothing else. */
  lemma BracketedKeysCollide(k: string, i: nat)
    ensures SitePath("", [Key(k + Bracketed(i))]) == SitePath("", if k == "" then [Index(i)] else [Key(k), Index(i)])
  {
    hide Decimal;
    OneStepOn("", Key(k + Bracketed(i)));
    IndexSpelled(k, i);
    if k == "" {
      OneStepOn("", Index(i));
      IndexSpelled("", i);
    } else {
      TwoStepsOn("", Key(k), Index(i));
    }
  }

  /** Below the root every key with a dot collides with the keys around the dot. */
  lemma EveryDottedKeyCollides(p: string, k: string, i: nat)
    requires p != "" && i < |k| && k[i] == '.'
    ensures SitePath("", [Key(p), Key(k)]) == SitePath("", [Key(p), Key(k[..i]), Key(k[i + 1..])])
  {
    hide SitePath;
    var x, y := k[..i], k[i + 1..];
    TwoStepsOn("", Key(p), Key(k));
    TwoStepsOn("", Key(p), Key(x));
    SitePathSnoc("", [Key(p), Key(x)], Key(y));
    assert [Key(p), Key(x)] + [Key(y)] == [Key(p), Key(x), Key(y)];
    DotSplits(p, k, i);
  }

  lemma DotSplits(p: string, k: string, i: nat)
    requires p != "" && i < |k| && k[i] == '.'
    ensures KeyPath(p, k) == KeyPath(KeyPath(p, k[..i]), k[i + 1..])
  {
    assert k == k[..i] + ("." + k[i + 1..]);
    Assoc(p + ".", k[..i], "." + k[i + 1..]);
    Assoc(p + "." + k[..i], ".", k[i + 1..]);
  }

  /** Every key that is not apart takes part in a collision: no weaker condition on single keys would do. */
  lemma NotApartCollides(k: string) returns (a: seq<Step>, b: seq<Step>)
    requires !Apart(k)
    ensures Key(k) in a && a != b && SitePath("", a) == SitePath("", b)
  {
    if k == "" {
      EmptyKeysCollide();
      a, b := [Key(""), Key("a")], [Key("a")];
    } else if i :| 0 <= i < |k| && k[i] == '.' {
      EveryDottedKeyCollides("p", k, i);
      a, b := [Key("p"), Key(k)], [Key("p"), Key(k[..i]), Key(k[i + 1..])];
    } else {
      var i: nat :| Ends(k, Bracketed(i));
      var x := k[..|k| - |Bracketed(i)|];
      assert k == x + Bracketed(i);
      BracketedKeysCollide(x, i);
      a, b := [Key(k)], if x == "" then [Index(i)] else [Key(x), Index(i)];
    }
  }
}
