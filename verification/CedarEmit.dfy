/** IDQL to Cedar: a rule is flattened into runs of one operator and a top-level conjunction is
    split into several `when`/`unless` clauses, which Cedar conjoins. */
module CedarEmit {
  import opened Collections
  import opened Idql
  import opened Surface
  import opened Parser
  import opened Cel

  // ----- flattening

  /** An operand of a run: an expression that is not bare logic, or a run of the other operator. */
  datatype Flat = Leaf(e: Expr) | Multi(op: LogicOp, items: seq<Flat>)

  function Flatten(e: Expr): seq<Flat>
    requires e.Logic?
    decreases e, 0
  {
    FlattenSide(e.left, e.op) + FlattenSide(e.right, e.op)
  }

  function FlattenSide(e: Expr, op: LogicOp): seq<Flat>
    decreases e, 1
  {
    if !e.Logic? then [Leaf(e)] else if e.op == op then Flatten(e) else [Multi(e.op, Flatten(e))]
  }

  /** The object flatten appends to. */
  class MultiLogicalExpression {
    var Operator: LogicOp
    var Expressions: seq<Flat>

    constructor (op: LogicOp)
      ensures Operator == op && Expressions == []
    {
      Operator := op;
      Expressions := [];
    }

    /** Appends the operands of `logical` in order; the operator stays what it was. */
    method FlattenInto(logical: Expr)
      requires logical.Logic?
      modifies this`Expressions
      ensures Expressions == old(Expressions) + Flatten(logical)
      decreases logical, 1
    {
      AddSide(logical.left, logical.op);
      AddSide(logical.right, logical.op);
    }

    method AddSide(e: Expr, op: LogicOp)
      modifies this`Expressions
      ensures Expressions == old(Expressions) + FlattenSide(e, op)
      decreases e, 3
    {
      if e.Logic? {
        if e.op == op {
          FlattenInto(e);
        } else {
          var flattened := MakeFlattenedLogical(e);
          Expressions := Expressions + [flattened];
        }
      } else {
        Expressions := Expressions + [Leaf(e)];
      }
    }
  }

  method MakeFlattenedLogical(logical: Expr) returns (f: Flat)
    requires logical.Logic?
    ensures f == CheckAndFlatten(logical)
    decreases logical, 2
  {
    var res := new MultiLogicalExpression(logical.op);
    res.FlattenInto(logical);
    f := Multi(res.Operator, res.Expressions);
  }

  function CheckAndFlatten(e: Expr): Flat {
    if e.Logic? then Multi(e.op, Flatten(e)) else Leaf(e)
  }

  predicate FlatEval(f: Flat, v: Valuation) {
    match f
    case Leaf(e) => Eval(e, v)
    case Multi(And, items) => forall i :: 0 <= i < |items| ==> FlatEval(items[i], v)
    case Multi(Or, items) => exists i :: 0 <= i < |items| && FlatEval(items[i], v)
  }

  lemma {:induction false} FlattenSideEval(e: Expr, op: LogicOp, v: Valuation)
    ensures FlattenSide(e, op) != []
    ensures FlatEval(Multi(op, FlattenSide(e, op)), v) == Eval(e, v)
    decreases e, 1
  {
    if e.Logic? {
      FlattenEval(e, v);
      if e.op != op {
        var f := CheckAndFlatten(e);
        assert FlattenSide(e, op) == [f] && FlatEval([f][0], v) == FlatEval(f, v);
      }
    } else {
      assert FlattenSide(e, op) == [Leaf(e)] && FlatEval([Leaf(e)][0], v) == Eval(e, v);
    }
  }

  lemma {:induction false} FlattenEval(e: Expr, v: Valuation)
    requires e.Logic?
    ensures Flatten(e) != []
    ensures FlatEval(CheckAndFlatten(e), v) == Eval(e, v)
    decreases e, 0
  {
    FlattenSideEval(e.left, e.op, v);
    FlattenSideEval(e.right, e.op, v);
    CatEval(e.op, FlattenSide(e.left, e.op), FlattenSide(e.right, e.op), v);
  }

  lemma CatEval(op: LogicOp, a: seq<Flat>, b: seq<Flat>, v: Valuation)
    ensures FlatEval(Multi(op, a + b), v) == Apply(op, FlatEval(Multi(op, a), v), FlatEval(Multi(op, b), v))
  {
    var c := a + b;
    assert forall i :: 0 <= i < |a| ==> c[i] == a[i];
    assert forall i :: 0 <= i < |b| ==> c[|a| + i] == b[i];
  }

  // ----- text of one expression

  /** `FailedTypeAssertion` and `SliceOutOfRange` are panics. */
  datatype CedarError = BadRule(error: ParseError) | FailedTypeAssertion | SliceOutOfRange

  type Text = Result<seq<LTok>, CedarError>

  /** A presence test whose path has no dot: there is nothing to write in front of `has`. */
  predicate Dotless(a: Atom) {
    a.op == PR && '.' !in a.path
  }

  predicate HasDotless(e: Expr) {
    match e
    case Attr(a) => Dotless(a)
    case Not(x) => HasDotless(x)
    case Prec(x) => HasDotless(x)
    case Logic(_, l, r) => HasDotless(l) || HasDotless(r)
  }

  /** mapFilterAttrExpr cuts the path of a presence test at its last dot. */
  function MapFilterAttrExpr(a: Atom): Text {
    if Dotless(a) then Err(SliceOutOfRange) else Ok([TAtom(a)])
  }

  function Surround(pre: seq<LTok>, t: Text): Text {
    match t
    case Err(e) => Err(e)
    case Ok(text) => Ok(pre + [TOpen] + text + [TClose])
  }

  function MapFilterExpression(e: Expr, isChild: bool): Text
    decreases e, 1
  {
    match e
    case Not(x) => Surround([TNot], if x.Logic? then MapFilterLogicalCedar(x, false) else MapFilterExpression(x, false))
    case Prec(x) => if x.Logic? then Surround([], MapFilterLogicalCedar(x, false)) else MapFilterExpression(x, false)
    case Logic(_, _, _) => MapFilterLogicalCedar(e, isChild)
    case Attr(a) => MapFilterAttrExpr(a)
  }

  function MapFilterLogicalCedar(e: Expr, isChild: bool): Text
    requires e.Logic?
    decreases e, 0
  {
    match MapFilterExpression(e.left, !IsDouble(e))
    case Err(x) => Err(x)
    case Ok(l) =>
      match MapFilterExpression(e.right, !IsDouble(e))
      case Err(x) => Err(x)
      case Ok(r) =>
        var text := l + [OpTok(e.op)] + r;
        Ok(if e.op == Or && isChild then [TOpen] + text + [TClose] else text)
  }

  function CedarLevel(e: Expr, isChild: bool): Level {
    match e
    case Attr(a) => Single(UAtom(a))
    case Not(x) => Single(UNot(UGroup(CedarLevel(x, false))))
    case Prec(x) => if x.Logic? then Single(UGroup(CedarLevel(x, false))) else CedarLevel(x, false)
    case Logic(op, l, r) =>
      var lv := JoinLevels(CedarLevel(l, !IsDouble(e)), op, CedarLevel(r, !IsDouble(e)));
      if op == Or && isChild then Single(UGroup(lv)) else lv
  }

  lemma SingleText(u: Unit)
    ensures LevelText(Single(u)) == UnitText(u)
  {
    assert RestText(End) == [];
  }

  lemma GroupText(lv: Level)
    ensures LevelText(Single(UGroup(lv))) == [TOpen] + LevelText(lv) + [TClose]
    ensures Surround([], Ok(LevelText(lv))) == Ok(LevelText(Single(UGroup(lv))))
    ensures Surround([TNot], Ok(LevelText(lv))) == Ok(LevelText(Single(UNot(UGroup(lv)))))
  {
    SingleText(UGroup(lv));
    SingleText(UNot(UGroup(lv)));
    assert [] + [TOpen] + LevelText(lv) + [TClose] == [TOpen] + LevelText(lv) + [TClose];
    assert [TNot] + [TOpen] + LevelText(lv) + [TClose] == [TNot] + ([TOpen] + LevelText(lv) + [TClose]);
  }

  /** An expression is written, as the text of its level, unless it holds a dotless presence test. */
  lemma {:induction false} CedarSpells(e: Expr, isChild: bool)
    ensures MapFilterExpression(e, isChild)
         == if HasDotless(e) then Err(SliceOutOfRange) else Ok(LevelText(CedarLevel(e, isChild)))
    decreases e
  {
    match e
    case Attr(a) => SingleText(UAtom(a));
    case Not(x) =>
      CedarSpells(x, false);
      GroupText(CedarLevel(x, false));
    case Prec(x) =>
      CedarSpells(x, false);
      GroupText(CedarLevel(x, false));
    case Logic(op, l, r) =>
      CedarSpells(l, !IsDouble(e));
      CedarSpells(r, !IsDouble(e));
      var a, b := CedarLevel(l, !IsDouble(e)), CedarLevel(r, !IsDouble(e));
      JoinText(a, op, b);
      GroupText(JoinLevels(a, op, b));
  }

  lemma {:induction false} CedarLevelEval(e: Expr, isChild: bool, v: Valuation)
    requires NoBareAndOr(e)
    ensures PrecEval(CedarLevel(e, isChild), v) == Eval(e, v)
    ensures isChild || (e.Logic? ==> e.op == And) ==> OneTerm(CedarLevel(e, isChild))
    decreases e
  {
    match e
    case Attr(_) =>
    case Not(x) =>
      CedarLevelEval(x, false, v);
      assert UnitEval(UGroup(CedarLevel(x, false)), v) == Eval(x, v);
    case Prec(x) => CedarLevelEval(x, false, v);
    case Logic(op, l, r) =>
      CedarLevelEval(l, !IsDouble(e), v);
      CedarLevelEval(r, !IsDouble(e), v);
      JoinEval(CedarLevel(l, !IsDouble(e)), op, CedarLevel(r, !IsDouble(e)), v);
  }

  /** How many pairs of brackets are written: as for CEL, and one for each negated comparison. */
  function CedarBrackets(e: Expr): nat {
    match e
    case Attr(_) => 0
    case Not(x) => 1 + CedarBrackets(x)
    case Prec(x) => CedarBrackets(x) + One(x.Logic?)
    case Logic(_, l, r) =>
      CedarBrackets(l) + CedarBrackets(r) + if IsDouble(e) then 0 else One(IsOr(l)) + One(IsOr(r))
  }

  lemma {:induction false} CedarLevelBrackets(e: Expr, isChild: bool)
    ensures Groups(CedarLevel(e, isChild)) == CedarBrackets(e) + One(isChild && IsOr(e))
    decreases e
  {
    match e
    case Attr(_) =>
    case Not(x) =>
      CedarLevelBrackets(x, false);
      assert UnitGroups(UGroup(CedarLevel(x, false))) == 1 + Groups(CedarLevel(x, false));
    case Prec(x) => CedarLevelBrackets(x, false);
    case Logic(op, l, r) =>
      CedarLevelBrackets(l, !IsDouble(e));
      CedarLevelBrackets(r, !IsDouble(e));
      JoinGroups(CedarLevel(l, !IsDouble(e)), op, CedarLevel(r, !IsDouble(e)));
  }

  lemma CedarBracketsExactly(e: Expr, isChild: bool)
    requires !HasDotless(e)
    ensures MapFilterExpression(e, isChild).Ok?
    ensures Opens(MapFilterExpression(e, isChild).value) == CedarBrackets(e) + One(isChild && IsOr(e))
  {
    CedarSpells(e, isChild);
    LevelOpens(CedarLevel(e, isChild));
    CedarLevelBrackets(e, isChild);
  }

  // ----- when / unless clauses

  datatype Clause = Clause(isUnless: bool, body: seq<LTok>)

  type Clauses = Result<seq<Clause>, CedarError>

  function JoinTexts(texts: seq<seq<LTok>>, op: LogicOp): seq<LTok> {
    if texts == [] then []
    else if |texts| == 1 then texts[0]
    else texts[0] + [OpTok(op)] + JoinTexts(texts[1..], op)
  }

  /** An operand of an `or` clause. A run inside it is taken for a conjunction of plain
      expressions; a run inside that one fails the type assertion. */
  function OrItem(f: Flat): Text {
    match f
    case Leaf(e) => MapFilterExpression(e, true)
    case Multi(_, items) =>
      match LeafTexts(items)
      case Err(e) => Err(e)
      case Ok(ts) => Ok([TOpen] + JoinTexts(ts, And) + [TClose])
  }

  function LeafTexts(items: seq<Flat>): Result<seq<seq<LTok>>, CedarError> {
    if items == [] then Ok([])
    else if items[0].Multi? then Err(FailedTypeAssertion)
    else match MapFilterExpression(items[0].e, true)
      case Err(e) => Err(e)
      case Ok(t) =>
        match LeafTexts(items[1..])
        case Err(e) => Err(e)
        case Ok(ts) => Ok([t] + ts)
  }

  function OrTexts(items: seq<Flat>): Result<seq<seq<LTok>>, CedarError> {
    if items == [] then Ok([])
    else match OrItem(items[0])
      case Err(e) => Err(e)
      case Ok(t) =>
        match OrTexts(items[1..])
        case Err(e) => Err(e)
        case Ok(ts) => Ok([t] + ts)
  }

  function MapFlattenedClause(f: Flat, isUnless: bool): Clauses
    decreases f, 1
  {
    match f
    case Multi(And, items) => MapEach(items, isUnless)
    case Multi(Or, items) =>
      (match OrTexts(items)
       case Err(e) => Err(e)
       case Ok(ts) => Ok([Clause(isUnless, JoinTexts(ts, Or))]))
    case Leaf(e) => MapToConditionClause(e, isUnless)
  }

  function MapEach(items: seq<Flat>, isUnless: bool): Clauses
    decreases items, 0
  {
    if items == [] then Ok([])
    else match MapFlattenedClause(items[0], isUnless)
      case Err(e) => Err(e)
      case Ok(cs) =>
        match MapEach(items[1..], isUnless)
        case Err(e) => Err(e)
        case Ok(ds) => Ok(cs + ds)
  }

  /** One clause; an outer pair of brackets is dropped and an outer `not` turns the clause. */
  function MapToConditionClause(e: Expr, isUnless: bool): Clauses {
    match e
    case Prec(x) => OneClause(isUnless, MapFilterExpression(x, false))
    case Not(x) => OneClause(!isUnless, MapFilterExpression(x, false))
    case _ => OneClause(isUnless, MapFilterExpression(e, false))
  }

  function OneClause(isUnless: bool, t: Text): Clauses {
    match t
    case Err(e) => Err(e)
    case Ok(body) => Ok([Clause(isUnless, body)])
  }

  function MapTree(e: Expr, isUnless: bool): Clauses {
    match e
    case Not(x) => MapFlattenedClause(CheckAndFlatten(x), !isUnless)
    case Prec(x) => MapFlattenedClause(CheckAndFlatten(x), isUnless)
    case Logic(_, _, _) => MapFlattenedClause(CheckAndFlatten(e), isUnless)
    case Attr(_) => MapToConditionClause(e, isUnless)
  }

  function MapConditionToCedar(rule: seq<Tok>, deny: bool): Clauses {
    match ParseTokens(rule)
    case Err(e) => Err(BadRule(e))
    case Ok(e) => MapTree(e, deny)
  }

  /** One operand of an `or` clause; the loop over the conjunction inside it. */
  method WriteOrItem(f: Flat) returns (r: Text)
    ensures r == OrItem(f)
  {
    if f.Leaf? {
      return MapFilterExpression(f.e, true);
    }
    var sb: seq<LTok> := [TOpen];
    ghost var done: seq<seq<LTok>> := [];
    PrependNoTexts(LeafTexts(f.items));
    assert f.items[0..] == f.items;
    var j := 0;
    while j < |f.items|
      invariant j <= |f.items|
      invariant sb == [TOpen] + JoinTexts(done, And) && |done| == j
      invariant LeafTexts(f.items) == PrependTexts(done, LeafTexts(f.items[j..]))
    {
      assert f.items[j..][1..] == f.items[j + 1..];
      if f.items[j].Multi? {
        return Err(FailedTypeAssertion);
      }
      var clause := MapFilterExpression(f.items[j].e, true);
      if clause.Err? {
        return Err(clause.error);
      }
      PrependTextsTwice(done, clause.value, LeafTexts(f.items[j + 1..]));
      JoinTextsSnoc(done, clause.value, And);
      if j > 0 {
        sb := sb + [OpTok(And)];
      }
      sb := sb + clause.value;
      done := done + [clause.value];
      j := j + 1;
    }
    assert done + [] == done;
    return Ok(sb + [TClose]);
  }

  /** mapFlattenedClause as the source runs it, writing clause after clause into a builder. */
  method WriteFlattenedClause(f: Flat, isUnless: bool) returns (r: Clauses)
    ensures r == MapFlattenedClause(f, isUnless)
    decreases f
  {
    if f.Multi? && f.op == And {
      var sb: seq<Clause> := [];
      PrependNothing(MapEach(f.items, isUnless));
      assert f.items[0..] == f.items;
      var i := 0;
      while i < |f.items|
        invariant i <= |f.items|
        invariant MapEach(f.items, isUnless) == Prepend(sb, MapEach(f.items[i..], isUnless))
      {
        assert f.items[i..][1..] == f.items[i + 1..];
        var clauseLine := WriteFlattenedClause(f.items[i], isUnless);
        if clauseLine.Err? {
          return clauseLine;
        }
        PrependTwice(sb, clauseLine.value, MapEach(f.items[i + 1..], isUnless));
        sb := sb + clauseLine.value;
        i := i + 1;
      }
      assert sb + [] == sb;
      return Ok(sb);
    }
    if f.Multi? {
      var sb: seq<LTok> := [];
      ghost var done: seq<seq<LTok>> := [];
      PrependNoTexts(OrTexts(f.items));
      assert f.items[0..] == f.items;
      var i := 0;
      while i < |f.items|
        invariant i <= |f.items|
        invariant sb == JoinTexts(done, Or) && |done| == i
        invariant OrTexts(f.items) == PrependTexts(done, OrTexts(f.items[i..]))
      {
        assert f.items[i..][1..] == f.items[i + 1..];
        var item := WriteOrItem(f.items[i]);
        if item.Err? {
          return Err(item.error);
        }
        PrependTextsTwice(done, item.value, OrTexts(f.items[i + 1..]));
        JoinTextsSnoc(done, item.value, Or);
        sb := if i > 0 then sb + [OpTok(Or)] + item.value else item.value;
        done := done + [item.value];
        i := i + 1;
      }
      assert done + [] == done;
      return Ok([Clause(isUnless, sb)]);
    }
    return MapToConditionClause(f.e, isUnless);
  }

  function Prepend(cs: seq<Clause>, r: Clauses): Clauses {
    if r.Ok? then Ok(cs + r.value) else r
  }

  lemma PrependNothing(r: Clauses)
    ensures Prepend([], r) == r
  {
    if r.Ok? {
      assert [] + r.value == r.value;
    }
  }

  lemma PrependTwice(a: seq<Clause>, b: seq<Clause>, r: Clauses)
    ensures Prepend(a, Prepend(b, r)) == Prepend(a + b, r)
  {
    if r.Ok? {
      assert a + (b + r.value) == (a + b) + r.value;
    }
  }

  function PrependTexts(ts: seq<seq<LTok>>, r: Result<seq<seq<LTok>>, CedarError>): Result<seq<seq<LTok>>, CedarError> {
    if r.Ok? then Ok(ts + r.value) else r
  }

  lemma PrependNoTexts(r: Result<seq<seq<LTok>>, CedarError>)
    ensures PrependTexts([], r) == r
  {
    if r.Ok? {
      assert [] + r.value == r.value;
    }
  }

  lemma PrependTextsTwice(a: seq<seq<LTok>>, t: seq<LTok>, r: Result<seq<seq<LTok>>, CedarError>)
    ensures PrependTexts(a, PrependTexts([t], r)) == PrependTexts(a + [t], r)
  {
    if r.Ok? {
      assert a + ([t] + r.value) == (a + [t]) + r.value;
    }
  }

  lemma {:induction false} JoinTextsSnoc(ts: seq<seq<LTok>>, t: seq<LTok>, op: LogicOp)
    ensures JoinTexts(ts + [t], op) == if ts == [] then t else JoinTexts(ts, op) + [OpTok(op)] + t
  {
    if |ts| <= 1 {
      if |ts| == 1 {
        assert (ts + [t])[1..] == [t];
      }
    } else {
      assert (ts + [t])[1..] == ts[1..] + [t];
      JoinTextsSnoc(ts[1..], t, op);
    }
  }
}
