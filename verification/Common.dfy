/** Small vocabulary shared by the models: failure datatypes and the few string
    operations of the Python standard library that the scripts rely on. */
module Common {

  datatype Option<+T> = None | Some(value: T)

  function Min(a: int, b: int): int {
    if a < b then a else b
  }

  function Max(a: int, b: int): int {
    if a < b then b else a
  }

  lemma Split<T>(a: seq<T>, b: seq<T>)
    ensures (a + b)[..|a|] == a && (a + b)[|a|..] == b
  {
  }

  lemma Tail<T>(s: seq<T>, a: nat, b: nat)
    requires a + b <= |s|
    ensures s[a..][b..] == s[a + b..]
  {
  }

  lemma PrefixAt<T>(s: seq<T>, k: nat, q: seq<T>)
    requires k <= |s| && q <= s[k..]
    ensures k + |q| <= |s| && s[k..k + |q|] == q
  {
    assert s[k..][..|q|] == q;
  }

  lemma Assoc<T>(a: seq<T>, b: seq<T>, c: seq<T>)
    ensures a + b + c == a + (b + c)
  {
  }

  /** How many newlines `s` holds. */
  function Newlines(s: string): nat {
    if s == "" then 0 else (if s[0] == '\n' then 1 else 0) + Newlines(s[1..])
  }

  lemma {:induction false} NewlinesConcat(a: string, b: string)
    ensures Newlines(a + b) == Newlines(a) + Newlines(b)
  {
    if a == "" {
      assert a + b == b;
    } else {
      assert (a + b)[1..] == a[1..] + b;
      NewlinesConcat(a[1..], b);
    }
  }

  /** First index at which `pat` occurs in `s`, or `|s|` when it does not. */
  function Find(s: string, pat: string): (k: nat)
    requires pat != ""
    ensures k <= |s|
    ensures k < |s| ==> pat <= s[k..]
    ensures forall j :: 0 <= j < k ==> !(pat <= s[j..])
  {
    if s == "" || pat <= s then 0
    else
      var k := 1 + Find(s[1..], pat);
      assert forall j :: 0 < j <= |s| ==> s[j..] == s[1..][j - 1..];
      k
  }

  /** `Find` is determined by what it promises. */
  lemma FindIs(s: string, pat: string, k: nat)
    requires pat != "" && k <= |s|
    requires k < |s| ==> pat <= s[k..]
    requires forall j :: 0 <= j < k ==> !(pat <= s[j..])
    ensures Find(s, pat) == k
  {
  }

  /** A run of `n` copies of `c`. */
  function Repeat(c: char, n: nat): (s: string)
    ensures |s| == n
    ensures forall k :: 0 <= k < n ==> s[k] == c
  {
    seq(n, _ => c)
  }

  /** The elements of a set, each once, in some order. */
  method Elements<T(==)>(s: set<T>) returns (out: seq<T>)
    ensures forall x :: x in out <==> x in s
    ensures |out| == |s| && forall i, j :: 0 <= i < j < |out| ==> out[i] != out[j]
  {
    out := [];
    var rest := s;
    while rest != {}
      invariant rest <= s && |out| == |s - rest|
      invariant forall i, j :: 0 <= i < j < |out| ==> out[i] != out[j]
      invariant forall x :: x in out <==> x in s - rest
      decreases rest
    {
      var x :| x in rest;
      out := out + [x];
      assert s - (rest - {x}) == (s - rest) + {x};
      rest := rest - {x};
    }
  }

  // ---- str.strip() ----

  predicate IsSpace(c: char) {
    c in " \t\n\r\U{0B}\U{0C}\U{1C}\U{1D}\U{1E}\U{1F}\U{85}\U{A0}\U{1680}\U{2028}\U{2029}\U{202F}\U{205F}\U{3000}" ||
    '\U{2000}' <= c <= '\U{200A}'
  }

  function StripLeft(s: string): (r: string)
    ensures r == "" || !IsSpace(r[0])
  {
    if s != "" && IsSpace(s[0]) then StripLeft(s[1..]) else s
  }

  function StripRight(s: string): (r: string)
    ensures r == "" || !IsSpace(r[|r| - 1])
    ensures r <= s
  {
    if s != "" && IsSpace(s[|s| - 1]) then
      assert s[..|s| - 1] <= s;
      StripRight(s[..|s| - 1])
    else s
  }

  function Strip(s: string): string {
    StripRight(StripLeft(s))
  }

  /** Text without space at either end is left alone. */
  lemma StripTight(s: string)
    requires s == "" || (!IsSpace(s[0]) && !IsSpace(s[|s| - 1]))
    ensures Strip(s) == s
  {
  }

  lemma StripIsTight(s: string)
    ensures var r := Strip(s); r == "" || (!IsSpace(r[0]) && !IsSpace(r[|r| - 1]))
  {
  }

  // ---- str(n) and int(s) ----

  function Decimal(n: nat): (s: string)
    ensures s != "" && forall k :: 0 <= k < |s| ==> '0' <= s[k] <= '9'
  {
    if n < 10 then [('0' as int + n) as char] else Decimal(n / 10) + [('0' as int + n % 10) as char]
  }

  function ParseDigits(s: string): Option<nat> {
    if s == "" then None
    else
      var c := s[|s| - 1];
      if !('0' <= c <= '9') then None
      else
        var d := c as int - '0' as int;
        if |s| == 1 then Some(d)
        else match ParseDigits(s[..|s| - 1])
             case None => None
             case Some(v) => Some(10 * v + d)
  }

  lemma {:induction false} ParseDecimal(n: nat)
    ensures ParseDigits(Decimal(n)) == Some(n)
  {
    if n >= 10 {
      ParseDecimal(n / 10);
      var s := Decimal(n);
      assert s[..|s| - 1] == Decimal(n / 10);
    }
  }

  lemma DecimalTight(n: nat)
    ensures Strip(Decimal(n)) == Decimal(n)
  {
    var s := Decimal(n);
    assert '0' <= s[0] <= '9' && '0' <= s[|s| - 1] <= '9';
    DigitsAreNoSpace();
    hide Decimal, Strip, IsSpace;
    StripTight(s);
  }

  lemma DigitsAreNoSpace()
    ensures forall c: char :: '0' <= c <= '9' ==> !IsSpace(c)
  {
  }

  // ---- the same, spelled out ----

  /** `sub` stands somewhere in `s`. */
  ghost predicate PartOf(sub: string, s: string) {
    exists x, y :: s == x + sub + y
  }

  lemma FindSays(s: string, sub: string)
    requires sub != ""
    ensures Find(s, sub) < |s| <==> PartOf(sub, s)
  {
    hide Find;
    var k := Find(s, sub);
    if k < |s| {
      PrefixAt(s, k, sub);
      assert s == s[..k] + sub + s[k + |sub|..];
    }
    if x, y :| s == x + sub + y {
      assert s[|x|..] == sub + y;
      assert sub <= s[|x|..];
    }
  }

  const BIG_LETTERS := "ABCDEFGHIJKLMNOPQRSTUVWXYZ"
  const SMALL_LETTERS := "abcdefghijklmnopqrstuvwxyz"
  const DIGITS := "0123456789"

  lemma DigitIs(c: char)
    ensures c in DIGITS <==> '0' <= c <= '9'
  {
    assert forall k :: 0 <= k < 10 ==> DIGITS[k] as int == '0' as int + k;
    if '0' <= c <= '9' {
      assert DIGITS[c as int - '0' as int] == c;
    }
  }

  lemma SmallLetterIs(c: char)
    ensures c in SMALL_LETTERS <==> 'a' <= c <= 'z'
  {
    assert forall k :: 0 <= k < 26 ==> SMALL_LETTERS[k] as int == 'a' as int + k;
    if 'a' <= c <= 'z' {
      assert SMALL_LETTERS[c as int - 'a' as int] == c;
    }
  }

  lemma BigLetterIs(c: char)
    ensures c in BIG_LETTERS <==> 'A' <= c <= 'Z'
  {
    assert forall k :: 0 <= k < 26 ==> BIG_LETTERS[k] as int == 'A' as int + k;
    if 'A' <= c <= 'Z' {
      assert BIG_LETTERS[c as int - 'A' as int] == c;
    }
  }

  /** A letter of the alphabet, either case. */
  predicate Letter(c: char) {
    c in SMALL_LETTERS || c in BIG_LETTERS
  }

  lemma LetterIs(c: char)
    ensures Letter(c) <==> 'a' <= c <= 'z' || 'A' <= c <= 'Z'
  {
    hide SMALL_LETTERS, BIG_LETTERS;
    SmallLetterIs(c);
    BigLetterIs(c);
  }

  ghost predicate Blank(s: string) {
    forall c :: c in s ==> IsSpace(c)
  }

  /** `core` with nothing but space around it. */
  ghost predicate Padded(s: string, core: string) {
    exists a, b :: Blank(a) && Blank(b) && s == a + core + b
  }

  lemma {:induction false} StripLeftOff(a: string, s: string)
    requires Blank(a)
    ensures StripLeft(a + s) == StripLeft(s)
  {
    hide IsSpace;
    if a == "" {
      assert a + s == s;
    } else {
      assert a[0] in a;
      assert (a + s)[1..] == a[1..] + s;
      StripLeftOff(a[1..], s);
    }
  }

  lemma {:induction false} StripRightOff(s: string, b: string)
    requires Blank(b)
    ensures StripRight(s + b) == StripRight(s)
  {
    hide IsSpace;
    if b == "" {
      assert s + b == s;
    } else {
      var n := |b| - 1;
      assert b[n] in b;
      assert (s + b)[..|s| + n] == s + b[..n] && (s + b)[|s| + n] == b[n];
      StripRightOff(s, b[..n]);
    }
  }

  lemma {:induction false} StripLeftPad(s: string) returns (a: string)
    ensures Blank(a) && s == a + StripLeft(s)
  {
    hide IsSpace;
    if s != "" && IsSpace(s[0]) {
      a := StripLeftPad(s[1..]);
      a := [s[0]] + a;
    } else {
      a := "";
    }
  }

  lemma {:induction false} StripRightPad(s: string) returns (b: string)
    ensures Blank(b) && s == StripRight(s) + b
  {
    hide IsSpace;
    if s != "" && IsSpace(s[|s| - 1]) {
      b := StripRightPad(s[..|s| - 1]);
      b := b + [s[|s| - 1]];
    } else {
      b := "";
    }
  }

  /** Stripping leaves the one text without space at its ends that the input is once padded. */
  lemma StripSays(s: string, core: string)
    ensures Strip(s) == core <==> Padded(s, core) && (core == "" || (!IsSpace(core[0]) && !IsSpace(core[|core| - 1])))
  {
    hide StripLeft, StripRight, IsSpace, Blank;
    if Padded(s, core) && (core == "" || (!IsSpace(core[0]) && !IsSpace(core[|core| - 1]))) {
      var a, b :| Blank(a) && Blank(b) && s == a + core + b;
      PaddedStrips(a, core, b);
    }
    if Strip(s) == core {
      var a := StripLeftPad(s);
      var b := StripRightPad(StripLeft(s));
      Assoc(a, core, b);
      assert s == a + core + b;
      StripIsTight(s);
    }
  }

  lemma BlankStrips(s: string)
    ensures Strip(s) == "" <==> Blank(s)
  {
    hide Strip, IsSpace;
    StripSays(s, "");
    if a, b :| Blank(a) && Blank(b) && s == a + "" + b {
      assert forall c :: c in s ==> c in a || c in b;
    }
    if Blank(s) {
      assert Blank("") && s == s + "" + "";
    }
  }

  lemma PaddedStrips(a: string, core: string, b: string)
    requires Blank(a) && Blank(b) && (core == "" || (!IsSpace(core[0]) && !IsSpace(core[|core| - 1])))
    ensures Strip(a + core + b) == core
  {
    hide IsSpace, Blank, StripLeft, StripRight;
    Assoc(a, core, b);
    StripLeftOff(a, core + b);
    if core == "" {
      assert core + b == b + "";
      StripLeftOff(b, "");
      EmptyStrips();
    } else {
      TightStays(core + b);
      StripRightOff(core, b);
      TightEndStays(core);
    }
  }

  lemma EmptyStrips()
    ensures StripLeft("") == "" && StripRight("") == ""
  {
  }

  lemma TightStays(s: string)
    requires s != "" && !IsSpace(s[0])
    ensures StripLeft(s) == s
  {
  }

  lemma TightEndStays(s: string)
    requires s != "" && !IsSpace(s[|s| - 1])
    ensures StripRight(s) == s
  {
  }

  /** The decimal form: a digit, or the form of the tens and the digit of the ones. */
  lemma DecimalSays(n: nat, d: nat)
    requires d < 10
    ensures Decimal(d) == [DIGITS[d]]
    ensures n > 0 ==> Decimal(10 * n + d) == Decimal(n) + [DIGITS[d]]
  {
    assert forall k :: 0 <= k < 10 ==> DIGITS[k] as int == '0' as int + k;
  }

  /** What `int` reads: digits, and of those one spelling per number, zeros in front aside. */
  lemma {:induction false} DigitsSay(s: string) returns (z: nat)
    ensures ParseDigits(s).Some? <==> s != "" && forall c :: c in s ==> c in DIGITS
    ensures ParseDigits(s).Some? ==> s == Repeat('0', z) + Decimal(ParseDigits(s).value)
  {
    hide Decimal, Repeat, DIGITS;
    z := 0;
    if s != "" {
      var rest, c := s[..|s| - 1], s[|s| - 1];
      assert s == rest + [c];
      DigitIs(c);
      if rest == "" {
        if '0' <= c <= '9' {
          OneDigit(c);
        }
      } else {
        z := DigitsSay(rest);
        if ParseDigits(s).Some? {
          z := OneDigitMore(z, ParseDigits(rest).value, c);
        }
      }
    }
  }

  lemma OneDigit(c: char)
    requires '0' <= c <= '9'
    ensures [c] == Repeat('0', 0) + Decimal(c as int - '0' as int)
  {
    DecimalSays(0, c as int - '0' as int);
    DigitAt(c);
  }

  lemma OneDigitMore(z: nat, v: nat, c: char) returns (y: nat)
    requires '0' <= c <= '9'
    ensures Repeat('0', z) + Decimal(v) + [c] == Repeat('0', y) + Decimal(10 * v + (c as int - '0' as int))
  {
    var d := c as int - '0' as int;
    DecimalSays(v, d);
    DecimalSays(v, 0);
    DigitAt(c);
    hide Decimal, DIGITS;
    if v > 0 {
      y := z;
      Assoc(Repeat('0', z), Decimal(v), [c]);
    } else {
      y := z + 1;
      assert Repeat('0', z) + ['0'] == Repeat('0', z + 1);
    }
  }

  lemma DigitAt(c: char)
    requires '0' <= c <= '9'
    ensures DIGITS[c as int - '0' as int] == c && DIGITS[0] == '0'
  {
    assert forall k :: 0 <= k < 10 ==> DIGITS[k] as int == '0' as int + k;
  }

  /** Zeros in front change no number. */
  lemma {:induction false} ZerosReadAway(z: nat, n: nat)
    ensures ParseDigits(Repeat('0', z) + Decimal(n)) == Some(n)
    decreases n
  {
    var s := Repeat('0', z) + Decimal(n);
    if n < 10 {
      assert s[..|s| - 1] == Repeat('0', z);
      ZerosAre(z);
    } else {
      assert s[..|s| - 1] == Repeat('0', z) + Decimal(n / 10);
      ZerosReadAway(z, n / 10);
    }
  }

  lemma {:induction false} ZerosAre(z: nat)
    ensures ParseDigits(Repeat('0', z)) == if z == 0 then None else Some(0)
  {
    if z > 0 {
      assert Repeat('0', z)[..z - 1] == Repeat('0', z - 1);
      ZerosAre(z - 1);
    }
  }

  /** A text reads as `n` exactly when it is `n` in decimal, any zeros in front. */
  lemma NumeralSays(s: string, n: nat)
    ensures ParseDigits(s) == Some(n) <==> Numeral(s, n)
  {
    hide ParseDigits, Decimal, Repeat;
    var z := DigitsSay(s);
    if z: nat :| s == Repeat('0', z) + Decimal(n) {
      ZerosReadAway(z, n);
    }
  }

  ghost predicate Numeral(s: string, n: nat) {
    exists z: nat :: s == Repeat('0', z) + Decimal(n)
  }
}
