/** Evaluation of a job's `if:` condition (scripts/check-windows-attribution.py,
    `eval_gha_if`): atoms become Boolean constants, the operators those of Python,
    and the parsed expression is folded under an allowlist of nodes. */
module GhaCondition {
  import opened Common

  /** The conditions the workflow is written in; any other is `Unknown`. */
  datatype Atom =
    | Marker(text: string)
    | StartsWith(prefix: string)
    | RefIs(name: string)
    | EventIs(name: string)
    | NotPublication
    | Unknown(text: string)

  datatype Context = Context(event: string, ref: string, messages: string, publication: Option<bool>)

  datatype Token = TAtom(a: Atom) | TAnd | TOr | TNot | TOpen | TClose

  /** The publication flag: given, or false on a push, or not known. */
  function Publication(ctx: Context): Option<bool> {
    if ctx.publication.Some? then ctx.publication else if ctx.event == "push" then Some(false) else None
  }

  predicate Contains(s: string, sub: string) {
    sub == "" || Find(s, sub) < |s|
  }

  /** The value of an atom, `None` when it cannot be read. */
  function AtomValue(a: Atom, ctx: Context): Option<bool> {
    match a
    case Marker(text) => Some(Contains(ctx.messages, text))
    case StartsWith(prefix) => Some(prefix <= ctx.ref)
    case RefIs(name) => Some(ctx.ref == name)
    case EventIs(name) => Some(ctx.event == name)
    case NotPublication => (match Publication(ctx) case Some(p) => Some(!p) case None => None)
    case Unknown(_) => None
  }

  // ---- the expression Python parses ----

  datatype Ast = Const(b: bool) | Disallowed | Not(e: Ast) | BoolOp(isAnd: bool, values: seq<Ast>)

  datatype Parsed = NoParse | Parsed(e: Ast, rest: seq<Token>)
  datatype ParsedList = NoList | ParsedList(es: seq<Ast>, rest: seq<Token>)

  predicate At(ts: seq<Token>, t: Token) {
    ts != [] && ts[0] == t
  }

  function Gather(isAnd: bool, es: seq<Ast>): Ast
    requires es != []
  {
    if |es| == 1 then es[0] else BoolOp(isAnd, es)
  }

  /** or_test: and_test ('or' and_test)* */
  function ParseOr(ctx: Context, ts: seq<Token>): (r: ParsedList)
    ensures r.ParsedList? ==> |r.rest| < |ts| && r.es != []
    decreases |ts|, 3
  {
    match ParseAnd(ctx, ts)
    case NoList => NoList
    case ParsedList(es, rest) =>
      if !At(rest, TOr) then ParsedList([Gather(true, es)], rest)
      else match ParseOr(ctx, rest[1..])
           case NoList => NoList
           case ParsedList(more, rest') => ParsedList([Gather(true, es)] + more, rest')
  }

  /** and_test: not_test ('and' not_test)* */
  function ParseAnd(ctx: Context, ts: seq<Token>): (r: ParsedList)
    ensures r.ParsedList? ==> |r.rest| < |ts| && r.es != []
    decreases |ts|, 2
  {
    match ParseNot(ctx, ts)
    case NoParse => NoList
    case Parsed(e, rest) =>
      if !At(rest, TAnd) then ParsedList([e], rest)
      else match ParseAnd(ctx, rest[1..])
           case NoList => NoList
           case ParsedList(more, rest') => ParsedList([e] + more, rest')
  }

  /** not_test: 'not' not_test | atom | '(' or_test ')' */
  function ParseNot(ctx: Context, ts: seq<Token>): (r: Parsed)
    ensures r.Parsed? ==> |r.rest| < |ts|
    decreases |ts|, 1
  {
    if ts == [] then NoParse
    else
      match ts[0]
      case TNot =>
        (match ParseNot(ctx, ts[1..])
         case NoParse => NoParse
         case Parsed(e, rest) => Parsed(Not(e), rest))
      case TAtom(a) =>
        (match AtomValue(a, ctx)
         case Some(b) => Parsed(Const(b), ts[1..])
         case None => Parsed(Disallowed, ts[1..]))
      case TOpen =>
        (match ParseOr(ctx, ts[1..])
         case NoList => NoParse
         case ParsedList(es, rest) => if At(rest, TClose) then Parsed(Gather(false, es), rest[1..]) else NoParse)
      case _ => NoParse
  }

  /** `_fold_bool`: every operand is folded before the operator is applied. */
  function Fold(e: Ast): Option<bool> {
    match e
    case Const(b) => Some(b)
    case Disallowed => None
    case Not(f) => (match Fold(f) case Some(b) => Some(!b) case None => None)
    case BoolOp(isAnd, values) =>
      (match FoldAll(values)
       case None => None
       case Some(bs) => Some(if isAnd then false !in bs else true in bs))
  }

  function FoldAll(es: seq<Ast>): (r: Option<seq<bool>>)
    ensures r.Some? ==> |r.value| == |es|
  {
    if es == [] then Some([])
    else match (Fold(es[0]), FoldAll(es[1..]))
         case (Some(b), Some(bs)) => Some([b] + bs)
         case _ => None
  }

  predicate MentionsPublication(ts: seq<Token>) {
    TAtom(NotPublication) in ts
  }

  /** `None` when the condition is not readable; no condition is no obstacle. */
  function EvalIf(ts: seq<Token>, ctx: Context): Option<bool> {
    if ts == [] then Some(true)
    else if MentionsPublication(ts) && Publication(ctx).None? then None
    else
      match ParseOr(ctx, ts)
      case NoList => None
      case ParsedList(es, rest) => if rest == [] then Fold(Gather(false, es)) else None
  }

  // ---- formulas and their truth ----

  datatype Formula =
    | Is(a: Atom)
    | Neg(f: Formula)
    | And(l: Formula, r: Formula)
    | Or(l: Formula, r: Formula)
    | Paren(f: Formula)

  function Wrap(yes: bool, ts: seq<Token>): seq<Token> {
    if yes then [TOpen] + ts + [TClose] else ts
  }

  /** Written with no more parentheses than precedence asks for, and any the formula has:
      0 where `||` may stand, 1 where `&&` may, 2 where neither may. */
  function Print(f: Formula, level: nat): (ts: seq<Token>)
    ensures ts != []
  {
    match f
    case Is(a) => [TAtom(a)]
    case Neg(g) => [TNot] + Print(g, 2)
    case And(l, r) => Wrap(level > 1, Print(l, 1) + [TAnd] + Print(r, 1))
    case Or(l, r) => Wrap(level > 0, Print(l, 0) + [TOr] + Print(r, 0))
    case Paren(g) => [TOpen] + Print(g, 0) + [TClose]
  }

  /** Every atom of the formula can be read. */
  predicate Readable(f: Formula, ctx: Context) {
    match f
    case Is(a) => AtomValue(a, ctx).Some?
    case Neg(g) => Readable(g, ctx)
    case And(l, r) => Readable(l, ctx) && Readable(r, ctx)
    case Or(l, r) => Readable(l, ctx) && Readable(r, ctx)
    case Paren(g) => Readable(g, ctx)
  }

  /** Its truth value. */
  predicate Truth(f: Formula, ctx: Context)
    requires Readable(f, ctx)
  {
    match f
    case Is(a) => AtomValue(a, ctx).value
    case Neg(g) => !Truth(g, ctx)
    case And(l, r) => Truth(l, ctx) && Truth(r, ctx)
    case Or(l, r) => Truth(l, ctx) || Truth(r, ctx)
    case Paren(g) => Truth(g, ctx)
  }

  // ---- the parser reads the printer's output ----

  /** Operands of a formula where `||` may stand: nested disjunctions are one flat list. */
  function OrAsts(f: Formula, ctx: Context): (es: seq<Ast>)
    ensures es != []
    decreases f, 2
  {
    match f
    case Or(l, r) => OrAsts(l, ctx) + OrAsts(r, ctx)
    case _ => [Gather(true, AndAsts(f, ctx))]
  }

  function AndAsts(f: Formula, ctx: Context): (es: seq<Ast>)
    ensures es != []
    decreases f, 1
  {
    match f
    case And(l, r) => AndAsts(l, ctx) + AndAsts(r, ctx)
    case _ => [AtomAst(f, ctx)]
  }

  function AtomAst(f: Formula, ctx: Context): Ast
    decreases f, 0
  {
    match f
    case Is(a) => (match AtomValue(a, ctx) case Some(b) => Const(b) case None => Disallowed)
    case Neg(g) => Not(AtomAst(g, ctx))
    case Paren(g) => Gather(false, OrAsts(g, ctx))
    case And(l, r) => BoolOp(true, AndAsts(l, ctx) + AndAsts(r, ctx))
    case Or(l, r) => BoolOp(false, OrAsts(l, ctx) + OrAsts(r, ctx))
  }

  /** `es` in front of what is parsed behind the operator, or `es` and the rest when there is none. */
  function OrBehind(ctx: Context, es: seq<Ast>, k: seq<Token>): ParsedList {
    if !At(k, TOr) then ParsedList(es, k)
    else match ParseOr(ctx, k[1..])
         case NoList => NoList
         case ParsedList(more, rest) => ParsedList(es + more, rest)
  }

  function AndBehind(ctx: Context, es: seq<Ast>, k: seq<Token>): ParsedList {
    if !At(k, TAnd) then ParsedList(es, k)
    else match ParseAnd(ctx, k[1..])
         case NoList => NoList
         case ParsedList(more, rest) => ParsedList(es + more, rest)
  }
}
