/** The evaluator returns the truth value of every formula it can read, and nothing
    for any other (scripts/check-windows-attribution.py). */
module GhaProof {
  import opened Common
  import opened GhaCondition

  // Which of the three lemmas may call which on the same formula.

  function OrRank(f: Formula): nat {
    if f.Or? then 0 else if f.And? then 1 else 2
  }

  function AndRank(f: Formula): nat {
    if f.Or? then 2 else if f.And? then 0 else 1
  }

  function NotRank(f: Formula): nat {
    if f.Or? then 1 else if f.And? then 2 else 0
  }

  lemma ParseOrUnfolds(ctx: Context, ts: seq<Token>, es: seq<Ast>, k: seq<Token>)
    requires ParseAnd(ctx, ts) == ParsedList(es, k)
    ensures es != [] && ParseOr(ctx, ts) == OrBehind(ctx, [Gather(true, es)], k)
  {
    hide ParseAnd;
  }

  lemma ParseAndUnfolds(ctx: Context, ts: seq<Token>, e: Ast, k: seq<Token>)
    requires ParseNot(ctx, ts) == Parsed(e, k)
    ensures ParseAnd(ctx, ts) == AndBehind(ctx, [e], k)
  {
    hide ParseNot;
  }

  lemma OrTwice(ctx: Context, a: seq<Ast>, b: seq<Ast>, ts: seq<Token>, k: seq<Token>)
    requires ParseOr(ctx, ts) == OrBehind(ctx, b, k)
    ensures OrBehind(ctx, a, [TOr] + ts) == OrBehind(ctx, a + b, k)
  {
    hide ParseOr;
    Split([TOr], ts);
    if At(k, TOr) && ParseOr(ctx, k[1..]).ParsedList? {
      Assoc(a, b, ParseOr(ctx, k[1..]).es);
    }
  }

  lemma AndTwice(ctx: Context, a: seq<Ast>, b: seq<Ast>, ts: seq<Token>, k: seq<Token>)
    requires ParseAnd(ctx, ts) == AndBehind(ctx, b, k)
    ensures AndBehind(ctx, a, [TAnd] + ts) == AndBehind(ctx, a + b, k)
  {
    hide ParseAnd;
    Split([TAnd], ts);
    if At(k, TAnd) && ParseAnd(ctx, k[1..]).ParsedList? {
      Assoc(a, b, ParseAnd(ctx, k[1..]).es);
    }
  }

  lemma {:induction false} OrPrinted(ctx: Context, f: Formula, k: seq<Token>)
    requires !At(k, TAnd)
    ensures ParseOr(ctx, Print(f, 0) + k) == OrBehind(ctx, OrAsts(f, ctx), k)
    decreases f, OrRank(f)
  {
    hide ParseOr, ParseAnd, OrBehind, Gather;
    if f.Or? {
      var a, b := Print(f.l, 0), Print(f.r, 0);
      OrPrinted(ctx, f.l, [TOr] + (b + k));
      OrPrinted(ctx, f.r, k);
      OrTwice(ctx, OrAsts(f.l, ctx), OrAsts(f.r, ctx), b + k, k);
      Infix(a, TOr, b, k);
    } else {
      AndPrinted(ctx, f, k);
      ParseOrUnfolds(ctx, Print(f, 1) + k, AndAsts(f, ctx), k);
    }
  }

  lemma Infix(a: seq<Token>, t: Token, b: seq<Token>, k: seq<Token>)
    ensures a + [t] + b + k == a + ([t] + (b + k))
  {
  }

  lemma {:induction false} AndPrinted(ctx: Context, f: Formula, k: seq<Token>)
    ensures ParseAnd(ctx, Print(f, 1) + k) == AndBehind(ctx, AndAsts(f, ctx), k)
    decreases f, AndRank(f)
  {
    hide ParseAnd, ParseNot, ParseOr, Gather;
    if f.And? {
      var a, b := Print(f.l, 1), Print(f.r, 1);
      AndPrinted(ctx, f.l, [TAnd] + (b + k));
      AndPrinted(ctx, f.r, k);
      AndTwice(ctx, AndAsts(f.l, ctx), AndAsts(f.r, ctx), b + k, k);
      Infix(a, TAnd, b, k);
    } else {
      NotPrinted(ctx, f, k);
      ParseAndUnfolds(ctx, Print(f, 2) + k, AtomAst(f, ctx), k);
    }
  }

  lemma ParseParen(ctx: Context, ts: seq<Token>, es: seq<Ast>, k: seq<Token>)
    requires es != [] && ParseOr(ctx, ts + ([TClose] + k)) == OrBehind(ctx, es, [TClose] + k)
    ensures ParseNot(ctx, [TOpen] + ts + [TClose] + k) == Parsed(Gather(false, es), k)
  {
    hide ParseOr, Gather;
    var s := [TOpen] + ts + [TClose] + k;
    assert s[0] == TOpen;
    assert s[1..] == ts + ([TClose] + k);
    Split([TClose], k);
  }

  lemma ParseNeg(ctx: Context, ts: seq<Token>, e: Ast, k: seq<Token>)
    requires ParseNot(ctx, ts) == Parsed(e, k)
    ensures ParseNot(ctx, [TNot] + ts) == Parsed(Not(e), k)
  {
    hide ParseOr;
    Split([TNot], ts);
  }

  lemma {:induction false} NotPrinted(ctx: Context, f: Formula, k: seq<Token>)
    ensures ParseNot(ctx, Print(f, 2) + k) == Parsed(AtomAst(f, ctx), k)
    decreases f, NotRank(f)
  {
    match f
    case Is(a) =>
      hide ParseOr;
      assert ([TAtom(a)] + k)[1..] == k;
    case Neg(g) =>
      hide ParseNot;
      NotPrinted(ctx, g, k);
      ParseNeg(ctx, Print(g, 2) + k, AtomAst(g, ctx), k);
      Assoc([TNot], Print(g, 2), k);
    case Paren(g) =>
      hide ParseNot, ParseOr, OrBehind, Gather;
      OrPrinted(ctx, g, [TClose] + k);
      ParseParen(ctx, Print(g, 0), OrAsts(g, ctx), k);
    case And(l, r) =>
      hide ParseNot, ParseOr, OrBehind;
      OrPrinted(ctx, f, [TClose] + k);
      ParseParen(ctx, Print(f, 0), OrAsts(f, ctx), k);
    case Or(l, r) =>
      hide ParseNot, ParseOr, OrBehind;
      OrPrinted(ctx, f, [TClose] + k);
      ParseParen(ctx, Print(f, 0), OrAsts(f, ctx), k);
  }

  // ---- folding ----

  lemma {:induction false} FoldConcat(a: seq<Ast>, b: seq<Ast>)
    ensures FoldAll(a + b) == match (FoldAll(a), FoldAll(b))
                              case (Some(x), Some(y)) => Some(x + y)
                              case _ => None
  {
    hide Fold;
    if a == [] {
      assert a + b == b;
      if FoldAll(b).Some? {
        assert [] + FoldAll(b).value == FoldAll(b).value;
      }
    } else {
      assert (a + b)[1..] == a[1..] + b;
      FoldConcat(a[1..], b);
      match (Fold(a[0]), FoldAll(a[1..]), FoldAll(b))
      case (Some(x), Some(xs), Some(ys)) => Assoc([x], xs, ys);
      case _ =>
    }
  }

  lemma FoldOne(e: Ast)
    ensures FoldAll([e]) == match Fold(e) case Some(b) => Some([b]) case None => None
  {
    hide Fold;
    assert [e][1..] == [];
    if Fold(e).Some? {
      assert [Fold(e).value] + [] == [Fold(e).value];
    }
  }

  /** One operand or many, the operator's value. */
  lemma FoldGathered(isAnd: bool, es: seq<Ast>)
    requires es != []
    ensures Fold(Gather(isAnd, es)) == match FoldAll(es)
                                       case None => None
                                       case Some(bs) => Some(if isAnd then false !in bs else true in bs)
  {
    if |es| == 1 {
      assert es == [es[0]];
      FoldOne(es[0]);
    }
  }

  ghost predicate FoldsOr(f: Formula, ctx: Context) {
    match FoldAll(OrAsts(f, ctx))
    case None => !Readable(f, ctx)
    case Some(bs) => Readable(f, ctx) && (true in bs <==> Truth(f, ctx))
  }

  ghost predicate FoldsAnd(f: Formula, ctx: Context) {
    match FoldAll(AndAsts(f, ctx))
    case None => !Readable(f, ctx)
    case Some(bs) => Readable(f, ctx) && (false !in bs <==> Truth(f, ctx))
  }

  ghost predicate FoldsAtom(f: Formula, ctx: Context) {
    Fold(AtomAst(f, ctx)) == if Readable(f, ctx) then Some(Truth(f, ctx)) else None
  }

  lemma {:induction false} FormulaFolds(f: Formula, ctx: Context)
    ensures FoldsOr(f, ctx) && FoldsAnd(f, ctx) && FoldsAtom(f, ctx)
    decreases f
  {
    hide Fold, FoldAll, Gather;
    match f
    case Is(a) => AtomFolds(f, ctx);
    case Neg(g) =>
      FormulaFolds(g, ctx);
      FoldNot(AtomAst(g, ctx));
      AtomFoldsAll(f, ctx);
    case Paren(g) =>
      FormulaFolds(g, ctx);
      FoldGathered(false, OrAsts(g, ctx));
      AtomFoldsAll(f, ctx);
    case And(l, r) =>
      FormulaFolds(l, ctx);
      FormulaFolds(r, ctx);
      AndFolds(f, ctx);
    case Or(l, r) =>
      FormulaFolds(l, ctx);
      FormulaFolds(r, ctx);
      OrFolds(f, ctx);
  }

  lemma AndFolds(f: Formula, ctx: Context)
    requires f.And? && FoldsAnd(f.l, ctx) && FoldsAnd(f.r, ctx)
    ensures FoldsOr(f, ctx) && FoldsAnd(f, ctx) && FoldsAtom(f, ctx)
  {
    hide Fold, FoldAll, Gather;
    var a, b := AndAsts(f.l, ctx), AndAsts(f.r, ctx);
    FoldConcat(a, b);
    FoldGathered(true, a + b);
    GatherTwo(true, a, b);
    FoldOne(Gather(true, a + b));
    AndUnfolds(f, ctx);
    hide AndAsts, OrAsts, AtomAst;
  }

  lemma AndUnfolds(f: Formula, ctx: Context)
    requires f.And?
    ensures var es := AndAsts(f.l, ctx) + AndAsts(f.r, ctx);
            AndAsts(f, ctx) == es && OrAsts(f, ctx) == [Gather(true, es)] && AtomAst(f, ctx) == Gather(true, es)
  {
    GatherTwo(true, AndAsts(f.l, ctx), AndAsts(f.r, ctx));
  }

  lemma OrUnfolds(f: Formula, ctx: Context)
    requires f.Or?
    ensures var es := OrAsts(f.l, ctx) + OrAsts(f.r, ctx);
            OrAsts(f, ctx) == es && AndAsts(f, ctx) == [AtomAst(f, ctx)] && AtomAst(f, ctx) == Gather(false, es)
  {
    GatherTwo(false, OrAsts(f.l, ctx), OrAsts(f.r, ctx));
  }

  lemma OrFolds(f: Formula, ctx: Context)
    requires f.Or? && FoldsOr(f.l, ctx) && FoldsOr(f.r, ctx)
    ensures FoldsOr(f, ctx) && FoldsAnd(f, ctx) && FoldsAtom(f, ctx)
  {
    hide Fold, FoldAll, Gather;
    var a, b := OrAsts(f.l, ctx), OrAsts(f.r, ctx);
    FoldConcat(a, b);
    FoldGathered(false, a + b);
    GatherTwo(false, a, b);
    FoldOne(AtomAst(f, ctx));
    OrUnfolds(f, ctx);
    hide AndAsts, OrAsts, AtomAst;
  }

  lemma GatherTwo(isAnd: bool, a: seq<Ast>, b: seq<Ast>)
    requires a != [] && b != []
    ensures Gather(isAnd, a + b) == BoolOp(isAnd, a + b)
  {
  }

  lemma FoldNot(e: Ast)
    ensures Fold(Not(e)) == match Fold(e) case Some(b) => Some(!b) case None => None
  {
  }

  lemma AtomFolds(f: Formula, ctx: Context)
    requires f.Is?
    ensures FoldsOr(f, ctx) && FoldsAnd(f, ctx) && FoldsAtom(f, ctx)
  {
    hide AtomValue;
    AtomFoldsAll(f, ctx);
  }

  /** A formula that is no conjunction or disjunction is its own single operand. */
  lemma AtomFoldsAll(f: Formula, ctx: Context)
    requires !f.And? && !f.Or? && FoldsAtom(f, ctx)
    ensures FoldsOr(f, ctx) && FoldsAnd(f, ctx)
  {
    hide AtomAst, Fold, FoldAll;
    var e := AtomAst(f, ctx);
    FoldOne(e);
    assert AndAsts(f, ctx) == [e];
    assert OrAsts(f, ctx) == [e];
  }

  lemma {:induction false} PublicationMentioned(f: Formula, level: nat, ctx: Context)
    requires TAtom(NotPublication) in Print(f, level) && Publication(ctx).None?
    ensures !Readable(f, ctx)
  {
    match f
    case Is(a) =>
    case Neg(g) => PublicationMentioned(g, 2, ctx);
    case Paren(g) => PublicationMentioned(g, 0, ctx);
    case And(l, r) =>
      if TAtom(NotPublication) in Print(l, 1) {
        PublicationMentioned(l, 1, ctx);
      } else {
        PublicationMentioned(r, 1, ctx);
      }
    case Or(l, r) =>
      if TAtom(NotPublication) in Print(l, 0) {
        PublicationMentioned(l, 0, ctx);
      } else {
        PublicationMentioned(r, 0, ctx);
      }
  }

  /** The evaluator returns the truth value of a written formula when every atom of it can be
      read, and `None` otherwise - also where one operand would have decided the rest. */
  lemma EvalIsTruth(f: Formula, ctx: Context)
    ensures EvalIf(Print(f, 0), ctx) == if Readable(f, ctx) then Some(Truth(f, ctx)) else None
  {
    hide ParseOr, Fold, FoldAll, Gather, Publication, Readable, Truth, OrAsts, Print;
    var ts := Print(f, 0);
    if MentionsPublication(ts) && Publication(ctx).None? {
      PublicationMentioned(f, 0, ctx);
    }
    assert ts + [] == ts;
    OrPrinted(ctx, f, []);
    FormulaFolds(f, ctx);
    FoldGathered(false, OrAsts(f, ctx));
  }

  // ---- whatever parses is a written formula ----

  lemma {:induction false} OrSpelled(ctx: Context, ts: seq<Token>) returns (f: Formula)
    requires ParseOr(ctx, ts).ParsedList?
    ensures ts == Print(f, 0) + ParseOr(ctx, ts).rest
    decreases |ts|, 3
  {
    hide ParseAnd, ParseNot;
    var l := AndSpelled(ctx, ts);
    var rest := ParseAnd(ctx, ts).rest;
    f := l;
    if At(rest, TOr) {
      var r := OrSpelled(ctx, rest[1..]);
      f := Or(l, r);
      hide ParseOr, Print;
      PrintOr(l, r);
      assert rest == [TOr] + rest[1..];
      Infix(Print(l, 1), TOr, Print(r, 0), ParseOr(ctx, rest[1..]).rest);
    }
  }

  lemma PrintOr(l: Formula, r: Formula)
    requires !l.Or?
    ensures Print(Or(l, r), 0) == Print(l, 1) + [TOr] + Print(r, 0)
  {
  }

  lemma {:induction false} AndSpelled(ctx: Context, ts: seq<Token>) returns (f: Formula)
    requires ParseAnd(ctx, ts).ParsedList?
    ensures !f.Or? && ts == Print(f, 1) + ParseAnd(ctx, ts).rest && Print(f, 0) == Print(f, 1)
    decreases |ts|, 2
  {
    hide ParseOr, ParseNot;
    var l := NotSpelled(ctx, ts);
    var rest := ParseNot(ctx, ts).rest;
    f := l;
    if At(rest, TAnd) {
      var r := AndSpelled(ctx, rest[1..]);
      f := And(l, r);
      hide ParseAnd, Print;
      PrintAnd(l, r);
      assert rest == [TAnd] + rest[1..];
      Infix(Print(l, 2), TAnd, Print(r, 1), ParseAnd(ctx, rest[1..]).rest);
    }
  }

  lemma PrintAnd(l: Formula, r: Formula)
    requires !l.And? && !l.Or?
    ensures Print(And(l, r), 1) == Print(l, 2) + [TAnd] + Print(r, 1) == Print(And(l, r), 0)
  {
  }

  lemma {:induction false} NotSpelled(ctx: Context, ts: seq<Token>) returns (f: Formula)
    requires ParseNot(ctx, ts).Parsed?
    ensures !f.And? && !f.Or? && ts == Print(f, 2) + ParseNot(ctx, ts).rest
    ensures Print(f, 0) == Print(f, 1) == Print(f, 2)
    decreases |ts|, 1
  {
    hide ParseOr, ParseAnd;
    assert ts == [ts[0]] + ts[1..];
    match ts[0]
    case TNot =>
      var g := NotSpelled(ctx, ts[1..]);
      f := Neg(g);
      Assoc([TNot], Print(g, 2), ParseNot(ctx, ts[1..]).rest);
    case TAtom(a) =>
      f := Is(a);
    case TOpen =>
      var g := OrSpelled(ctx, ts[1..]);
      f := Paren(g);
      var rest := ParseOr(ctx, ts[1..]).rest;
      assert rest == [TClose] + rest[1..];
      Bracketed(Print(g, 0), rest[1..]);
  }

  lemma Bracketed(ts: seq<Token>, k: seq<Token>)
    ensures [TOpen] + (ts + ([TClose] + k)) == [TOpen] + ts + [TClose] + k
  {
  }

  /** What a condition says: nothing at all, or a readable formula of that truth value. */
  ghost predicate Means(ts: seq<Token>, ctx: Context, b: bool) {
    (ts == [] && b) || exists f :: Print(f, 0) == ts && Readable(f, ctx) && Truth(f, ctx) == b
  }

  /** On any tokens the evaluator answers `b` exactly when they are no condition and `b` holds,
      or spell a readable formula of truth value `b`. */
  lemma EvalIff(ts: seq<Token>, ctx: Context, b: bool)
    ensures EvalIf(ts, ctx) == Some(b) <==> Means(ts, ctx, b)
  {
    if ts != [] {
      if EvalIf(ts, ctx).Some? {
        var f := WrittenFormula(ts, ctx);
        EvalIsTruth(f, ctx);
      }
      forall f | Print(f, 0) == ts ensures EvalIf(ts, ctx) == if Readable(f, ctx) then Some(Truth(f, ctx)) else None {
        EvalIsTruth(f, ctx);
      }
      hide EvalIf, Readable, Truth, Print;
    } else {
      hide Print, Readable, Truth;
    }
  }

  lemma WrittenFormula(ts: seq<Token>, ctx: Context) returns (f: Formula)
    requires ts != [] && EvalIf(ts, ctx).Some?
    ensures Print(f, 0) == ts
  {
    hide ParseOr, Print, Fold;
    f := OrSpelled(ctx, ts);
    assert Print(f, 0) + [] == Print(f, 0);
  }

  // ---- what the atoms say ----

  /** What each condition the workflow uses says of a push. */
  ghost predicate Reads(a: Atom, ctx: Context, b: bool) {
    match a
    case Marker(text) => b <==> PartOf(text, ctx.messages)
    case StartsWith(prefix) => b <==> Continues(ctx.ref, prefix)
    case RefIs(name) => b <==> ctx.ref == name
    case EventIs(name) => b <==> ctx.event == name
    case NotPublication =>
      if ctx.publication.Some? then b != ctx.publication.value else ctx.event == "push" && b
    case Unknown(_) => false
  }

  ghost predicate Continues(ref: string, prefix: string) {
    exists rest :: ref == prefix + rest
  }

  /** The value of a formula all of whose atoms say something, the operators those of logic. */
  ghost predicate Denotes(f: Formula, ctx: Context, b: bool) {
    match f
    case Is(a) => Reads(a, ctx, b)
    case Neg(g) => Denotes(g, ctx, !b)
    case And(l, r) =>
      if b then Denotes(l, ctx, true) && Denotes(r, ctx, true)
      else
        (Denotes(l, ctx, false) && (Denotes(r, ctx, false) || Denotes(r, ctx, true))) ||
        (Denotes(l, ctx, true) && Denotes(r, ctx, false))
    case Or(l, r) =>
      if !b then Denotes(l, ctx, false) && Denotes(r, ctx, false)
      else
        (Denotes(l, ctx, true) && (Denotes(r, ctx, false) || Denotes(r, ctx, true))) ||
        (Denotes(l, ctx, false) && Denotes(r, ctx, true))
    case Paren(g) => Denotes(g, ctx, b)
  }

  lemma ContainsIs(s: string, sub: string)
    ensures Contains(s, sub) <==> PartOf(sub, s)
  {
    hide Find;
    if sub == "" {
      assert s == "" + sub + s;
    } else {
      FindSays(s, sub);
    }
  }

  lemma ContinuesIs(ref: string, prefix: string)
    ensures prefix <= ref <==> Continues(ref, prefix)
  {
    if prefix <= ref {
      assert ref == prefix + ref[|prefix|..];
    }
  }

  lemma AtomReads(a: Atom, ctx: Context, b: bool)
    ensures AtomValue(a, ctx) == Some(b) <==> Reads(a, ctx, b)
  {
    hide Contains, PartOf, Continues;
    match a
    case Marker(text) => ContainsIs(ctx.messages, text);
    case StartsWith(prefix) => ContinuesIs(ctx.ref, prefix);
    case _ =>
  }

  lemma {:induction false} TruthDenotes(f: Formula, ctx: Context, b: bool)
    ensures Readable(f, ctx) && Truth(f, ctx) == b <==> Denotes(f, ctx, b)
  {
    hide Reads, AtomValue;
    match f
    case Is(a) => AtomReads(a, ctx, b);
    case Neg(g) => TruthDenotes(g, ctx, !b);
    case Paren(g) => TruthDenotes(g, ctx, b);
    case And(l, r) =>
      TruthDenotes(l, ctx, true);
      TruthDenotes(l, ctx, false);
      TruthDenotes(r, ctx, true);
      TruthDenotes(r, ctx, false);
    case Or(l, r) =>
      TruthDenotes(l, ctx, true);
      TruthDenotes(l, ctx, false);
      TruthDenotes(r, ctx, true);
      TruthDenotes(r, ctx, false);
  }

  /** A written formula is answered exactly as it reads; it gets no answer when an atom of it says nothing. */
  lemma EvalSays(f: Formula, ctx: Context, b: bool)
    ensures EvalIf(Print(f, 0), ctx) == Some(b) <==> Denotes(f, ctx, b)
  {
    hide EvalIf, Denotes, Readable, Truth;
    EvalIsTruth(f, ctx);
    TruthDenotes(f, ctx, b);
  }

  /** A single condition is answered as the push has it. */
  lemma AtomSays(a: Atom, ctx: Context, b: bool)
    ensures EvalIf([TAtom(a)], ctx) == Some(b) <==> Reads(a, ctx, b)
  {
    hide EvalIf, Reads;
    EvalSays(Is(a), ctx, b);
  }

  /** An answer is given exactly to no condition at all and to a formula that has it. */
  lemma EvalSaysIff(ts: seq<Token>, ctx: Context, b: bool)
    ensures EvalIf(ts, ctx) == Some(b) <==> if ts == [] then b else exists f :: Print(f, 0) == ts && Denotes(f, ctx, b)
  {
    hide EvalIf, Denotes, Readable, Truth, Print;
    EvalIff(ts, ctx, b);
    forall f ensures Readable(f, ctx) && Truth(f, ctx) == b <==> Denotes(f, ctx, b) {
      TruthDenotes(f, ctx, b);
    }
    if ts != [] && Means(ts, ctx, b) {
      var f :| Print(f, 0) == ts && Readable(f, ctx) && Truth(f, ctx) == b;
      assert Denotes(f, ctx, b);
    }
    if f :| Print(f, 0) == ts && Denotes(f, ctx, b) {
      assert Means(ts, ctx, b);
    }
  }
}
