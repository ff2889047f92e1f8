/** SerializeExpression: the printer that drops the brackets precedence makes redundant. */
module Serialize {
  import opened Collections
  import opened Idql
  import opened Surface
  import opened Once
  import opened Parser
  import opened ParserFold
  import opened ParserMeaning

  // ----- the printer

  function SerializeExpression(e: Expr): seq<LTok> {
    Walk(e, false)
  }

  function Walk(e: Expr, isChild: bool): seq<LTok>
    decreases e, 0
  {
    match e
    case Logic(op, l, r) =>
      var text := CheckNested(l, op) + [OpTok(op)] + CheckNested(r, op);
      if isChild && op == Or then [TOpen] + text + [TClose] else text
    case Not(x) => [TNot] + ([TOpen] + Walk(x, false) + [TClose])
    case Prec(x) => [TOpen] + Walk(x, false) + [TClose]
    case Attr(a) => [TAtom(a)]
  }

  function Strip(e: Expr): Expr {
    if e.Prec? then e.body else e
  }

  /** An operand of `op`: one pair of brackets is dropped, and put back only around an `or`
      under an `and`. */
  function CheckNested(e: Expr, op: LogicOp): seq<LTok>
    decreases e, 1
  {
    var x := Strip(e);
    Walk(x, !(x.Logic? && x.op == op))
  }

  // ----- the level that text spells

  function WalkLevel(e: Expr, isChild: bool): Level
    decreases e, 0
  {
    match e
    case Logic(op, l, r) =>
      var lv := JoinLevels(NestedLevel(l, op), op, NestedLevel(r, op));
      if isChild && op == Or then Single(UGroup(lv)) else lv
    case Not(x) => Single(UNot(UGroup(WalkLevel(x, false))))
    case Prec(x) => Single(UGroup(WalkLevel(x, false)))
    case Attr(a) => Single(UAtom(a))
  }

  function NestedLevel(e: Expr, op: LogicOp): Level
    decreases e, 1
  {
    var x := Strip(e);
    WalkLevel(x, !(x.Logic? && x.op == op))
  }

  lemma {:induction false} WalkSpells(e: Expr, isChild: bool)
    ensures Walk(e, isChild) == LevelText(WalkLevel(e, isChild))
    decreases e
  {
    match e
    case Logic(op, l, r) =>
      var x, y := Strip(l), Strip(r);
      WalkSpells(x, !(x.Logic? && x.op == op));
      WalkSpells(y, !(y.Logic? && y.op == op));
      JoinText(NestedLevel(l, op), op, NestedLevel(r, op));
    case Not(x) =>
      WalkSpells(x, false);
      assert LevelText(WalkLevel(e, isChild)) == UnitText(UNot(UGroup(WalkLevel(x, false))));
      assert UnitText(UGroup(WalkLevel(x, false))) == [TOpen] + Walk(x, false) + [TClose];
    case Prec(x) => WalkSpells(x, false);
    case Attr(_) =>
  }

  lemma {:induction false} WalkEval(e: Expr, isChild: bool, v: Valuation)
    ensures PrecEval(WalkLevel(e, isChild), v) == Eval(e, v)
    ensures isChild || (e.Logic? ==> e.op == And) ==> OneTerm(WalkLevel(e, isChild))
    decreases e
  {
    match e
    case Logic(op, l, r) =>
      var x, y := Strip(l), Strip(r);
      WalkEval(x, !(x.Logic? && x.op == op), v);
      WalkEval(y, !(y.Logic? && y.op == op), v);
      JoinEval(NestedLevel(l, op), op, NestedLevel(r, op), v);
    case Not(x) =>
      WalkEval(x, false, v);
      assert UnitEval(UGroup(WalkLevel(x, false)), v) == Eval(x, v);
    case Prec(x) => WalkEval(x, false, v);
    case Attr(_) =>
  }

  /** Main result: read with RFC 7644 precedence, the printed text means what the tree means. */
  lemma SerializeMeaning(e: Expr, v: Valuation)
    ensures TextMeaning(SerializeExpression(e), v) == Some(Eval(e, v))
  {
    WalkSpells(e, false);
    WalkEval(e, false, v);
    LevelMeaning(WalkLevel(e, false), v);
  }

  /** How many pairs of brackets the text needs: one for each `not`, for each bracket that is not
      itself an operand, and for each `or` that is an operand of an `and`. */
  function Brackets(e: Expr): nat
    decreases e, 0
  {
    match e
    case Attr(_) => 0
    case Not(x) => 1 + Brackets(x)
    case Prec(x) => 1 + Brackets(x)
    case Logic(op, l, r) => OperandBrackets(l, op) + OperandBrackets(r, op)
  }

  /** An operand's own brackets do not count. */
  function OperandBrackets(e: Expr, op: LogicOp): nat
    decreases e, 1
  {
    match e
    case Prec(x) => Brackets(x) + One(op == And && IsOr(x))
    case _ => Brackets(e) + One(op == And && IsOr(e))
  }

  lemma {:induction false} WalkBrackets(e: Expr, isChild: bool)
    ensures Groups(WalkLevel(e, isChild)) == Brackets(e) + One(isChild && IsOr(e))
    decreases e
  {
    match e
    case Attr(_) =>
    case Not(x) =>
      WalkBrackets(x, false);
      assert UnitGroups(UGroup(WalkLevel(x, false))) == 1 + Groups(WalkLevel(x, false));
    case Prec(x) => WalkBrackets(x, false);
    case Logic(op, l, r) =>
      var x, y := Strip(l), Strip(r);
      WalkBrackets(x, !(x.Logic? && x.op == op));
      WalkBrackets(y, !(y.Logic? && y.op == op));
      JoinGroups(NestedLevel(l, op), op, NestedLevel(r, op));
  }

  /** And no more than those are written. */
  lemma BracketsExactly(e: Expr)
    ensures Opens(SerializeExpression(e)) == Brackets(e)
  {
    WalkSpells(e, false);
    LevelOpens(WalkLevel(e, false));
    WalkBrackets(e, false);
  }

  // ----- re-association

  /** Appends the run `r` of `op` to `l`, nesting to the left. */
  function Graft(op: LogicOp, l: Expr, r: Expr): Expr {
    if r.Logic? && r.op == op then Logic(op, Graft(op, l, r.left), r.right) else Logic(op, l, r)
  }

  /** Every run of one operator nested to the left, at every depth: trees with the same
      LeftAssoc differ only in how runs are grouped. */
  function LeftAssoc(e: Expr): Expr {
    match e
    case Attr(_) => e
    case Not(x) => Not(LeftAssoc(x))
    case Prec(x) => Prec(LeftAssoc(x))
    case Logic(op, l, r) => Graft(op, LeftAssoc(l), LeftAssoc(r))
  }

  lemma {:induction false} GraftAssociates(op: LogicOp, a: Expr, b: Expr, c: Expr)
    ensures Graft(op, Graft(op, a, b), c) == Graft(op, a, Graft(op, b, c))
  {
    if c.Logic? && c.op == op {
      GraftAssociates(op, a, b, c.left);
    }
  }

  /** Regrouping a run is invisible to LeftAssoc. */
  lemma RotationKeepsLeftAssoc(op: LogicOp, a: Expr, b: Expr, c: Expr)
    ensures LeftAssoc(Logic(op, Logic(op, a, b), c)) == LeftAssoc(Logic(op, a, Logic(op, b, c)))
  {
    GraftAssociates(op, LeftAssoc(a), LeftAssoc(b), LeftAssoc(c));
  }

  lemma {:induction false} GraftText(op: LogicOp, l: Expr, r: Expr, isChild: bool)
    ensures Graft(op, l, r).Logic? && Graft(op, l, r).op == op
    ensures Walk(Graft(op, l, r), isChild) == Walk(Logic(op, l, r), isChild)
    decreases r
  {
    if r.Logic? && r.op == op {
      GraftText(op, l, r.left, false);
      var nl, n1, n2, o := CheckNested(l, op), CheckNested(r.left, op), CheckNested(r.right, op), [OpTok(op)];
      assert CheckNested(r, op) == n1 + o + n2;
      assert CheckNested(Graft(op, l, r.left), op) == nl + o + n1;
      assert nl + o + (n1 + o + n2) == (nl + o + n1) + o + n2;
    }
  }

  lemma LeftAssocKind(e: Expr)
    ensures LeftAssoc(e).Logic? == e.Logic? && (e.Logic? ==> LeftAssoc(e).op == e.op)
    ensures LeftAssoc(e).Prec? == e.Prec?
  {}

  lemma {:induction false} LeftAssocText(e: Expr, isChild: bool)
    ensures Walk(LeftAssoc(e), isChild) == Walk(e, isChild)
    decreases e, 0
  {
    match e
    case Attr(_) =>
    case Not(x) => LeftAssocText(x, false);
    case Prec(x) => LeftAssocText(x, false);
    case Logic(op, l, r) =>
      var x, y := LeftAssoc(l), LeftAssoc(r);
      GraftText(op, x, y, isChild);
      NestedLeftAssoc(l, op);
      NestedLeftAssoc(r, op);
  }

  lemma {:induction false} NestedLeftAssoc(e: Expr, op: LogicOp)
    ensures CheckNested(LeftAssoc(e), op) == CheckNested(e, op)
    decreases e, 1
  {
    var x := Strip(e);
    LeftAssocKind(e);
    LeftAssocKind(x);
    LeftAssocText(x, false);
    LeftAssocText(x, true);
  }

  /** Main result: the text does not depend on how runs of one operator are grouped. */
  lemma SerializeReassociates(e1: Expr, e2: Expr)
    requires LeftAssoc(e1) == LeftAssoc(e2)
    ensures SerializeExpression(e1) == SerializeExpression(e2)
  {
    LeftAssocText(e1, false);
    LeftAssocText(e2, false);
  }

  // ----- through the repository's own parser

  predicate WordsRead(e: Expr) {
    match e
    case Attr(a) => WfAtom(a) && !IsLogicWord(a.value)
    case Not(x) => WordsRead(x)
    case Prec(x) => WordsRead(x)
    case Logic(_, l, r) => WordsRead(l) && WordsRead(r)
  }

  lemma {:induction false} WfJoin(l: Rest, op: LogicOp, r: Level)
    requires WfRest(l, false) && WfLevel(r, false)
    ensures WfRest(JoinRest(l, op, r), false)
    decreases l
  {
    match l
    case End =>
    case More(_, _, tl) => WfJoin(tl, op, r);
  }

  lemma {:induction false} WfWeaken(r: Rest)
    requires WfRest(r, false)
    ensures WfRest(r, true)
  {
    match r
    case End =>
    case More(_, u, tl) => WfWeaken(tl); WfWeakenUnit(u);
  }

  lemma {:induction false} WfWeakenUnit(u: Unit)
    requires WfUnit(u, false)
    ensures WfUnit(u, true)
  {
    match u
    case UNot(x) => WfWeakenUnit(x);
    case _ =>
  }

  lemma WfWeakenLevel(lv: Level)
    requires WfLevel(lv, false)
    ensures WfLevel(lv, true)
  {
    WfWeaken(lv.rest);
    WfWeakenUnit(lv.first);
  }

  lemma {:induction false} WalkWf(e: Expr, isChild: bool)
    requires WordsRead(e)
    ensures WfLevel(WalkLevel(e, isChild), false)
    decreases e
  {
    match e
    case Attr(_) =>
    case Not(x) =>
      WalkWf(x, false);
      WfWeakenLevel(WalkLevel(x, false));
      assert WfUnit(UGroup(WalkLevel(x, false)), false);
    case Prec(x) =>
      WalkWf(x, false);
      WfWeakenLevel(WalkLevel(x, false));
    case Logic(op, l, r) =>
      var x, y := Strip(l), Strip(r);
      WalkWf(x, !(x.Logic? && x.op == op));
      WalkWf(y, !(y.Logic? && y.op == op));
      WfJoin(NestedLevel(l, op).rest, op, NestedLevel(r, op));
      WfWeakenLevel(JoinLevels(NestedLevel(l, op), op, NestedLevel(r, op)));
  }

  /** ParseFilter accepts every printed tree. */
  lemma SerializeParses(e: Expr)
    requires WordsRead(e)
    ensures ParseTokens(Spell(SerializeExpression(e), false)) == Ok(FoldLevel(WalkLevel(e, false)))
  {
    WalkSpells(e, false);
    WalkWf(e, false);
    WfWeakenLevel(WalkLevel(e, false));
    ParseIsLeftFold(WalkLevel(e, false), false);
  }

  lemma StripOnce(e: Expr)
    ensures AtomsOf(Strip(e)) == AtomsOf(e) && (ReadOnce(e) ==> ReadOnce(Strip(e)))
  {}

  lemma {:induction false} WalkAtoms(e: Expr, isChild: bool)
    ensures LevelAtoms(WalkLevel(e, isChild)) == AtomsOf(e)
    ensures ReadOnce(e) ==> LevelOnce(WalkLevel(e, isChild))
    decreases e
  {
    match e
    case Attr(_) =>
    case Not(x) =>
      WalkAtoms(x, false);
      assert UnitAtoms(UNot(UGroup(WalkLevel(x, false)))) == UnitAtoms(UGroup(WalkLevel(x, false)));
    case Prec(x) => WalkAtoms(x, false);
    case Logic(op, l, r) =>
      var x, y := Strip(l), Strip(r);
      StripOnce(l);
      StripOnce(r);
      WalkAtoms(x, !(x.Logic? && x.op == op));
      WalkAtoms(y, !(y.Logic? && y.op == op));
      var a, b := NestedLevel(l, op), NestedLevel(r, op);
      JoinAtoms(a.rest, op, b);
      assert LevelAtoms(JoinLevels(a, op, b)) == AtomsOf(e);
      assert UnitAtoms(UGroup(JoinLevels(a, op, b))) == AtomsOf(e);
      if ReadOnce(e) {
        assert ReadOnce(l) && ReadOnce(r);
        assert LevelOnce(a) && LevelOnce(b);
        JoinOnce(a.rest, op, b);
      }
  }

  /** Main result: printing and parsing again keeps the meaning when the printed text has status
      Same, so in particular when it is tidy. */
  lemma SerializeParseMeaning(e: Expr, v: Valuation)
    requires WordsRead(e) && (LevelStatus(WalkLevel(e, false)) == Same || Tidy(WalkLevel(e, false)))
    ensures var r := ParseTokens(Spell(SerializeExpression(e), false));
      r.Ok? && Eval(r.value, v) == Eval(e, v)
  {
    SerializeParses(e);
    WalkEval(e, false, v);
    if Tidy(WalkLevel(e, false)) {
      TidySame(WalkLevel(e, false));
    }
    LevelSound(WalkLevel(e, false), v);
  }

  predicate SurvivesUnder(e: Expr, v: Valuation) {
    var r := ParseTokens(Spell(SerializeExpression(e), false));
    r.Ok? && Eval(r.value, v) == Eval(e, v)
  }

  /** And exactly then: a tree in which no comparison occurs twice keeps its meaning under every
      valuation if and only if its printed text has status Same. */
  lemma SerializeParseExact(e: Expr)
    requires WordsRead(e) && ReadOnce(e)
    ensures (forall v :: SurvivesUnder(e, v)) <==> LevelStatus(WalkLevel(e, false)) == Same
  {
    var lv := WalkLevel(e, false);
    SerializeParses(e);
    WalkAtoms(e, false);
    FoldAgreementExact(lv);
    forall v ensures SurvivesUnder(e, v) <==> SameUnder(lv, v) {
      WalkEval(e, false, v);
    }
    if LevelStatus(lv) != Same {
      var v :| !SameUnder(lv, v);
      assert !SurvivesUnder(e, v);
    }
  }
}
