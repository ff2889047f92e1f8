/** IDQL to Google CEL: the emitter and the one shape for which it writes too few brackets. */
module Cel {
  import opened Collections
  import opened Idql
  import opened Surface
  import opened ParserRetract

  // ----- the emitter

  function MapFilter(e: Expr): seq<LTok> {
    MapFilterInternal(e, false)
  }

  function MapFilterInternal(e: Expr, isChild: bool): seq<LTok>
    decreases e, 1
  {
    match e
    case Not(_) => MapFilterNot(e)
    case Prec(_) => MapFilterPrecedence(e)
    case Logic(_, _, _) => MapFilterLogical(e, isChild)
    case Attr(a) => [TAtom(a)]
  }

  function MapFilterNot(e: Expr): seq<LTok>
    requires e.Not?
    decreases e, 0
  {
    [TNot] + (if e.arg.Logic? then [TOpen] + MapFilterLogical(e.arg, false) + [TClose]
              else MapFilterInternal(e.arg, false))
  }

  function MapFilterPrecedence(e: Expr): seq<LTok>
    requires e.Prec?
    decreases e, 0
  {
    if e.body.Logic? then [TOpen] + MapFilterLogical(e.body, false) + [TClose]
    else MapFilterInternal(e.body, false)
  }

  /** The operators that CEL writes between two operands. */
  predicate IsRelation(op: CompareOp) {
    op in {EQ, NE, LT, LE, GT, GE, IN, IS}
  }

  /** A run that continues on the left: both operands are then written as if not nested. */
  predicate IsDouble(e: Expr)
    requires e.Logic?
  {
    e.left.Logic? && e.left.op == e.op
  }

  function MapFilterLogical(e: Expr, isChild: bool): seq<LTok>
    requires e.Logic?
    decreases e, 0
  {
    var text := MapFilterInternal(e.left, !IsDouble(e)) + [OpTok(e.op)] + MapFilterInternal(e.right, !IsDouble(e));
    if e.op == Or && isChild then [TOpen] + text + [TClose] else text
  }

  // ----- the level that text spells

  function CelLevel(e: Expr, isChild: bool): Level {
    match e
    case Attr(a) => Single(UAtom(a))
    case Not(x) => Single(UNot(CelUnit(x)))
    case Prec(x) => Single(CelUnit(x))
    case Logic(op, l, r) =>
      var lv := JoinLevels(CelLevel(l, !IsDouble(e)), op, CelLevel(r, !IsDouble(e)));
      if op == Or && isChild then Single(UGroup(lv)) else lv
  }

  /** A single operand: brackets around logic, none around anything else. */
  function CelUnit(e: Expr): Unit {
    match e
    case Attr(a) => UAtom(a)
    case Not(x) => UNot(CelUnit(x))
    case Prec(x) => CelUnit(x)
    case Logic(op, l, r) => UGroup(JoinLevels(CelLevel(l, !IsDouble(e)), op, CelLevel(r, !IsDouble(e))))
  }

  lemma {:induction false} EmitSpells(e: Expr, isChild: bool)
    ensures MapFilterInternal(e, isChild) == LevelText(CelLevel(e, isChild))
    ensures e.Logic? ==> [TOpen] + MapFilterLogical(e, false) + [TClose] == UnitText(CelUnit(e))
    ensures !e.Logic? ==> MapFilterInternal(e, false) == UnitText(CelUnit(e))
    decreases e
  {
    match e
    case Attr(_) =>
    case Not(x) => EmitSpells(x, false);
    case Prec(x) => EmitSpells(x, false);
    case Logic(op, l, r) =>
      var child := !IsDouble(e);
      EmitSpells(l, child);
      EmitSpells(r, child);
      JoinText(CelLevel(l, child), op, CelLevel(r, child));
  }

  /** The one shape the emitter gets wrong: an AND of a bare AND and a bare OR. */
  predicate BareAndOr(e: Expr) {
    e.Logic? && e.op == And && e.left.Logic? && e.left.op == And && e.right.Logic? && e.right.op == Or
  }

  predicate NoBareAndOr(e: Expr) {
    match e
    case Attr(_) => true
    case Not(x) => NoBareAndOr(x)
    case Prec(x) => NoBareAndOr(x)
    case Logic(_, l, r) => !BareAndOr(e) && NoBareAndOr(l) && NoBareAndOr(r)
  }

  lemma {:induction false} CelLevelEval(e: Expr, isChild: bool, v: Valuation)
    requires NoBareAndOr(e)
    ensures PrecEval(CelLevel(e, isChild), v) == Eval(e, v)
    ensures UnitEval(CelUnit(e), v) == Eval(e, v)
    ensures isChild || (e.Logic? ==> e.op == And) ==> OneTerm(CelLevel(e, isChild))
    decreases e
  {
    match e
    case Attr(_) =>
    case Not(x) => CelLevelEval(x, false, v);
    case Prec(x) => CelLevelEval(x, false, v);
    case Logic(op, l, r) =>
      var child := !IsDouble(e);
      CelLevelEval(l, child, v);
      CelLevelEval(r, child, v);
      JoinEval(CelLevel(l, child), op, CelLevel(r, child), v);
  }

  /** The emitted text, its comparisons taken as units and read with CEL precedence, means what the
      tree means. */
  lemma EmitMeaning(e: Expr, v: Valuation)
    requires NoBareAndOr(e)
    ensures TextMeaning(MapFilter(e), v) == Some(Eval(e, v))
  {
    EmitSpells(e, false);
    CelLevelEval(e, false, v);
    LevelMeaning(CelLevel(e, false), v);
  }

  /** How many pairs of brackets are written: one for each logical expression that is negated or
      stands in brackets, and for each `or` that is an operand, but not of a run that goes on to the
      left. */
  function Brackets(e: Expr): nat {
    match e
    case Attr(_) => 0
    case Not(x) => Brackets(x) + One(x.Logic?)
    case Prec(x) => Brackets(x) + One(x.Logic?)
    case Logic(_, l, r) => Brackets(l) + Brackets(r) + if IsDouble(e) then 0 else One(IsOr(l)) + One(IsOr(r))
  }

  lemma {:induction false} LevelBrackets(e: Expr, isChild: bool)
    ensures Groups(CelLevel(e, isChild)) == Brackets(e) + One(isChild && IsOr(e))
    ensures UnitGroups(CelUnit(e)) == Brackets(e) + One(e.Logic?)
    decreases e
  {
    match e
    case Attr(_) =>
    case Not(x) => LevelBrackets(x, false);
    case Prec(x) => LevelBrackets(x, false);
    case Logic(op, l, r) =>
      LevelBrackets(l, !IsDouble(e));
      LevelBrackets(r, !IsDouble(e));
      JoinGroups(CelLevel(l, !IsDouble(e)), op, CelLevel(r, !IsDouble(e)));
  }

  lemma BracketsExactly(e: Expr)
    ensures Opens(MapFilter(e)) == Brackets(e)
  {
    EmitSpells(e, false);
    LevelOpens(CelLevel(e, false));
    LevelBrackets(e, false);
  }

  lemma {:induction false} ParsedHasNoBareAndOr(e: Expr, last: bool)
    requires ParsedTree(e, last)
    ensures NoBareAndOr(e)
  {
    match e
    case Attr(_) =>
    case Not(x) => ParsedHasNoBareAndOr(x, true);
    case Prec(x) => ParsedHasNoBareAndOr(x, true);
    case Logic(_, l, r) => ParsedHasNoBareAndOr(l, false); ParsedHasNoBareAndOr(r, last);
  }
}
