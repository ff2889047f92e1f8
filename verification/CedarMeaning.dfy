/** What the split Cedar clauses mean, when they mean what the rule means, and when the mapper
    returns clauses at all. */
module CedarMeaning {
  import opened Idql
  import opened Surface
  import opened Parser
  import opened ParserRetract
  import opened Cel
  import opened CedarEmit

  /** Cedar conjoins its clauses: a `when` body must hold, an `unless` body must not. */
  function PolicyMeaning(cs: seq<Clause>, v: Valuation): Option<bool> {
    if cs == [] then Some(true)
    else match (TextMeaning(cs[0].body, v), PolicyMeaning(cs[1..], v))
      case (Some(m), Some(rest)) => Some(m != cs[0].isUnless && rest)
      case _ => None
  }

  lemma {:induction false} PolicyCat(a: seq<Clause>, b: seq<Clause>, v: Valuation)
    requires PolicyMeaning(a, v).Some? && PolicyMeaning(b, v).Some?
    ensures PolicyMeaning(a + b, v) == Some(PolicyMeaning(a, v).value && PolicyMeaning(b, v).value)
  {
    if a == [] {
      assert a + b == b;
    } else {
      assert (a + b)[1..] == a[1..] + b;
      PolicyCat(a[1..], b, v);
    }
  }

  // ----- what flattening yields: plain operands and runs of alternating operators

  predicate WellFlat(f: Flat) {
    match f
    case Leaf(e) => !e.Logic? && NoBareAndOr(e)
    case Multi(op, items) =>
      items != [] && forall i :: 0 <= i < |items| ==> WellFlat(items[i]) && (items[i].Multi? ==> items[i].op != op)
  }

  lemma {:induction false} FlattenIsWellFlat(e: Expr)
    requires e.Logic? && NoBareAndOr(e)
    ensures WellFlat(Multi(e.op, Flatten(e)))
    decreases e, 0
  {
    SideIsWellFlat(e.left, e.op);
    SideIsWellFlat(e.right, e.op);
  }

  lemma {:induction false} SideIsWellFlat(e: Expr, op: LogicOp)
    requires NoBareAndOr(e)
    ensures WellFlat(Multi(op, FlattenSide(e, op)))
    decreases e, 1
  {
    if e.Logic? {
      FlattenIsWellFlat(e);
    }
  }

  // ----- text of an `or` clause

  function ItemLevel(f: Flat): Level {
    match f
    case Leaf(e) => CedarLevel(e, true)
    case Multi(_, items) =>
      if items == [] then CedarLevel(Attr(Atom("", EQ, "")), true) else Single(UGroup(RunLevel(items, And)))
  }

  function RunLevel(items: seq<Flat>, op: LogicOp): Level
    requires items != []
  {
    if |items| == 1 then ItemLevel(items[0]) else JoinLevels(ItemLevel(items[0]), op, RunLevel(items[1..], op))
  }

  lemma {:induction false} RunText(items: seq<Flat>, op: LogicOp, texts: seq<seq<LTok>>)
    requires items != [] && |texts| == |items|
    requires forall i :: 0 <= i < |items| ==> texts[i] == LevelText(ItemLevel(items[i]))
    ensures JoinTexts(texts, op) == LevelText(RunLevel(items, op))
  {
    if |items| == 1 {
    } else {
      RunText(items[1..], op, texts[1..]);
      JoinText(ItemLevel(items[0]), op, RunLevel(items[1..], op));
    }
  }

  lemma {:induction false} RunEval(items: seq<Flat>, op: LogicOp, v: Valuation)
    requires items != []
    requires forall i :: 0 <= i < |items| ==>
      OneTerm(ItemLevel(items[i])) && PrecEval(ItemLevel(items[i]), v) == FlatEval(items[i], v)
    ensures PrecEval(RunLevel(items, op), v) == FlatEval(Multi(op, items), v)
    ensures op == And ==> OneTerm(RunLevel(items, op))
  {
    if |items| == 1 {
      assert FlatEval(items[0], v) == FlatEval(Multi(op, items), v);
    } else {
      RunEval(items[1..], op, v);
      JoinEval(ItemLevel(items[0]), op, RunLevel(items[1..], op), v);
      assert items == [items[0]] + items[1..];
      CatEval(op, [items[0]], items[1..], v);
      assert FlatEval([items[0]][0], v) == FlatEval(Multi(op, [items[0]]), v);
    }
  }

  lemma LeafItem(f: Flat, v: Valuation)
    requires f.Leaf? && WellFlat(f) && MapFilterExpression(f.e, true).Ok?
    ensures MapFilterExpression(f.e, true).value == LevelText(ItemLevel(f))
    ensures OneTerm(ItemLevel(f)) && PrecEval(ItemLevel(f), v) == FlatEval(f, v)
  {
    CedarSpells(f.e, true);
    CedarLevelEval(f.e, true, v);
  }

  lemma {:induction false} LeafTextsMeaning(items: seq<Flat>, v: Valuation)
    requires LeafTexts(items).Ok? && forall i :: 0 <= i < |items| ==> WellFlat(items[i])
    ensures |LeafTexts(items).value| == |items|
    ensures forall i :: 0 <= i < |items| ==>
      && LeafTexts(items).value[i] == LevelText(ItemLevel(items[i]))
      && OneTerm(ItemLevel(items[i])) && PrecEval(ItemLevel(items[i]), v) == FlatEval(items[i], v)
  {
    if items == [] {
    } else {
      LeafItem(items[0], v);
      LeafTextsMeaning(items[1..], v);
      forall i | 1 <= i < |items|
        ensures LeafTexts(items).value[i] == LevelText(ItemLevel(items[i]))
        ensures OneTerm(ItemLevel(items[i])) && PrecEval(ItemLevel(items[i]), v) == FlatEval(items[i], v)
      {
        assert items[i] == items[1..][i - 1];
      }
    }
  }

  lemma {:induction false} OrItemMeaning(f: Flat, v: Valuation)
    requires WellFlat(f) && (f.Multi? ==> f.op == And) && OrItem(f).Ok?
    ensures OrItem(f).value == LevelText(ItemLevel(f))
    ensures OneTerm(ItemLevel(f)) && PrecEval(ItemLevel(f), v) == FlatEval(f, v)
  {
    match f
    case Leaf(_) => LeafItem(f, v);
    case Multi(_, items) =>
      LeafTextsMeaning(items, v);
      RunText(items, And, LeafTexts(items).value);
      RunEval(items, And, v);
      var lv := RunLevel(items, And);
      GroupText(lv);
      assert UnitEval(UGroup(lv), v) == PrecEval(lv, v);
  }

  lemma {:induction false} OrTextsMeaning(items: seq<Flat>, v: Valuation)
    requires OrTexts(items).Ok?
    requires forall i :: 0 <= i < |items| ==> WellFlat(items[i]) && (items[i].Multi? ==> items[i].op == And)
    ensures |OrTexts(items).value| == |items|
    ensures forall i :: 0 <= i < |items| ==>
      && OrTexts(items).value[i] == LevelText(ItemLevel(items[i]))
      && OneTerm(ItemLevel(items[i])) && PrecEval(ItemLevel(items[i]), v) == FlatEval(items[i], v)
  {
    if items == [] {
    } else {
      OrItemMeaning(items[0], v);
      OrTextsMeaning(items[1..], v);
      forall i | 1 <= i < |items|
        ensures OrTexts(items).value[i] == LevelText(ItemLevel(items[i]))
        ensures OneTerm(ItemLevel(items[i])) && PrecEval(ItemLevel(items[i]), v) == FlatEval(items[i], v)
      {
        assert items[i] == items[1..][i - 1];
      }
    }
  }

  // ----- the clauses

  /** A conjunction is split, each part keeping the clause kind. */
  predicate SplitEval(f: Flat, isUnless: bool, v: Valuation) {
    if f.Multi? && f.op == And then forall i :: 0 <= i < |f.items| ==> FlatEval(f.items[i], v) != isUnless
    else FlatEval(f, v) != isUnless
  }

  lemma SingleClause(c: Clause, v: Valuation)
    ensures PolicyMeaning([c], v) ==
      match TextMeaning(c.body, v) { case Some(m) => Some(m != c.isUnless) case None => None }
  {
    assert PolicyMeaning([c][1..], v) == Some(true);
  }

  /** What stands inside the clause: an outer bracket or `not` is dropped. */
  function Inner(e: Expr): Expr {
    match e
    case Prec(x) => x
    case Not(x) => x
    case _ => e
  }

  lemma ConditionClauseMeaning(e: Expr, isUnless: bool, v: Valuation)
    requires NoBareAndOr(e) && MapToConditionClause(e, isUnless).Ok?
    ensures PolicyMeaning(MapToConditionClause(e, isUnless).value, v) == Some(Eval(e, v) != isUnless)
  {
    var x := Inner(e);
    CedarSpells(x, false);
    CedarLevelEval(x, false, v);
    LevelMeaning(CedarLevel(x, false), v);
    SingleClause(MapToConditionClause(e, isUnless).value[0], v);
  }

  lemma OrClauseMeaning(items: seq<Flat>, isUnless: bool, v: Valuation)
    requires WellFlat(Multi(Or, items)) && OrTexts(items).Ok?
    ensures PolicyMeaning([Clause(isUnless, JoinTexts(OrTexts(items).value, Or))], v)
         == Some(FlatEval(Multi(Or, items), v) != isUnless)
  {
    OrTextsMeaning(items, v);
    RunText(items, Or, OrTexts(items).value);
    RunEval(items, Or, v);
    LevelMeaning(RunLevel(items, Or), v);
    SingleClause(Clause(isUnless, JoinTexts(OrTexts(items).value, Or)), v);
  }

  lemma {:induction false} EachMeaning(items: seq<Flat>, isUnless: bool, v: Valuation)
    requires MapEach(items, isUnless).Ok?
    requires forall i :: 0 <= i < |items| ==> WellFlat(items[i]) && (items[i].Multi? ==> items[i].op == Or)
    ensures PolicyMeaning(MapEach(items, isUnless).value, v)
         == Some(forall i :: 0 <= i < |items| ==> FlatEval(items[i], v) != isUnless)
    decreases items
  {
    if items == [] {
    } else {
      ClauseMeaning(items[0], isUnless, v);
      EachMeaning(items[1..], isUnless, v);
      PolicyCat(MapFlattenedClause(items[0], isUnless).value, MapEach(items[1..], isUnless).value, v);
      assert forall i :: 1 <= i < |items| ==> items[i] == items[1..][i - 1];
      assert forall i :: 0 <= i < |items[1..]| ==> items[1..][i] == items[i + 1];
    }
  }

  lemma {:induction false} ClauseMeaning(f: Flat, isUnless: bool, v: Valuation)
    requires WellFlat(f) && MapFlattenedClause(f, isUnless).Ok?
    ensures PolicyMeaning(MapFlattenedClause(f, isUnless).value, v) == Some(SplitEval(f, isUnless, v))
    decreases f
  {
    match f
    case Leaf(e) => ConditionClauseMeaning(e, isUnless, v);
    case Multi(Or, items) => OrClauseMeaning(items, isUnless, v);
    case Multi(And, items) => EachMeaning(items, isUnless, v);
  }

  /** The part of the rule that is split, without an outer bracket or `not`. */
  function SplitPart(e: Expr): Expr {
    if e.Not? then e.arg else if e.Prec? then e.body else e
  }

  predicate UnderUnless(e: Expr, deny: bool) {
    if e.Not? then !deny else deny
  }

  /** The branch that goes wrong: a bare conjunction written as several `unless` clauses. */
  predicate SplitsUnless(e: Expr, deny: bool) {
    UnderUnless(e, deny) && SplitPart(e).Logic? && SplitPart(e).op == And
  }

  lemma TreeMeaning(e: Expr, deny: bool, v: Valuation)
    requires NoBareAndOr(e) && MapTree(e, deny).Ok?
    ensures PolicyMeaning(MapTree(e, deny).value, v)
         == Some(SplitEval(CheckAndFlatten(SplitPart(e)), UnderUnless(e, deny), v))
    ensures FlatEval(CheckAndFlatten(SplitPart(e)), v) == Eval(SplitPart(e), v)
    ensures (Eval(SplitPart(e), v) != UnderUnless(e, deny)) == (Eval(e, v) != deny)
  {
    var x := SplitPart(e);
    if x.Logic? {
      FlattenIsWellFlat(x);
      FlattenEval(x, v);
    }
    if e.Attr? {
      ConditionClauseMeaning(e, deny, v);
    } else {
      ClauseMeaning(CheckAndFlatten(x), UnderUnless(e, deny), v);
    }
  }

  /** Main result, for every rule the parser accepts and clauses are returned for: the clauses
      imply the rule under its action, and equal it unless a bare conjunction was split into
      `unless` clauses. */
  lemma ClausesSound(rule: seq<Tok>, deny: bool, v: Valuation)
    requires MapConditionToCedar(rule, deny).Ok?
    ensures var e := ParseTokens(rule).value;
      var m := PolicyMeaning(MapConditionToCedar(rule, deny).value, v);
      && m.Some?
      && (m.value ==> Eval(e, v) != deny)
      && (!SplitsUnless(e, deny) ==> m.value == (Eval(e, v) != deny))
  {
    var e := ParseTokens(rule).value;
    RunShape(rule, START);
    ParsedHasNoBareAndOr(e, true);
    TreeMeaning(e, deny, v);
    var x := SplitPart(e);
    if x.Logic? {
      FlattenEval(x, v);
      var items := Flatten(x);
      if UnderUnless(e, deny) && x.op == And && SplitEval(CheckAndFlatten(x), true, v) {
        assert !FlatEval(items[0], v);
      }
    }
  }

  /** And exactly then: when no comparison occurs twice, clauses and rule agree under every
      valuation if and only if no bare conjunction is split into `unless` clauses. */
  lemma ClausesExact(e: Expr, deny: bool)
    requires NoBareAndOr(e) && ReadOnce(e) && MapTree(e, deny).Ok?
    ensures (forall v :: PolicyMeaning(MapTree(e, deny).value, v) == Some(Eval(e, v) != deny))
       <==> !SplitsUnless(e, deny)
  {
    var x := SplitPart(e);
    var f := CheckAndFlatten(x);
    forall v ensures PolicyMeaning(MapTree(e, deny).value, v)
                  == Some(SplitEval(f, UnderUnless(e, deny), v)) {
      TreeMeaning(e, deny, v);
    }
    if !SplitsUnless(e, deny) {
      forall v ensures SplitEval(f, UnderUnless(e, deny), v) == (Eval(e, v) != deny) {
        TreeMeaning(e, deny, v);
      }
    } else {
      var v1 := Realize(x.left, true);
      var v2 := Realize(x.right, false);
      var v := Override(AtomsOf(x.left), v1, v2);
      EvalLocal(x.left, v, v1);
      EvalLocal(x.right, v, v2);
      TreeMeaning(e, deny, v);
      FlattenSideEval(x.left, And, v);
      assert FlatEval(FlattenSide(x.left, And)[0], v);
      assert f.items[0] == FlattenSide(x.left, And)[0];
      assert !SplitEval(f, true, v);
    }
  }

  // ----- when clauses are returned

  /** How often the operator changes along the bare logic at the top of a tree. */
  function BareDepth(e: Expr): nat
    decreases e, 0
  {
    if e.Logic? then 1 + Max(DepthUnder(e.left, e.op), DepthUnder(e.right, e.op)) else 0
  }

  function DepthUnder(e: Expr, op: LogicOp): nat
    decreases e, 1
  {
    if !e.Logic? then 0 else if e.op == op then BareDepth(e) - 1 else BareDepth(e)
  }

  function Max(a: nat, b: nat): nat {
    if a < b then b else a
  }

  /** The first thing that stops the writing of `e`, in the order of the text, when its bare logic
      may alternate `room` times: a run that is one too deep, or a dotless presence test. */
  function FirstFault(e: Expr, room: nat): Option<CedarError>
    decreases e, 0
  {
    if !e.Logic? then (if HasDotless(e) then Some(SliceOutOfRange) else None)
    else if room == 0 then Some(FailedTypeAssertion)
    else match SideFault(e.left, e.op, room)
      case Some(x) => Some(x)
      case None => SideFault(e.right, e.op, room)
  }

  function SideFault(e: Expr, op: LogicOp, room: nat): Option<CedarError>
    requires room > 0
    decreases e, 1
  {
    FirstFault(e, if e.Logic? && e.op == op then room else room - 1)
  }

  /** Nothing stops it exactly when the operators alternate no deeper than that and every presence
      test has a dot; and each fault says which of the two it is. */
  lemma {:induction false} FaultExact(e: Expr, room: nat)
    ensures FirstFault(e, room) == None <==> BareDepth(e) <= room && !HasDotless(e)
    ensures FirstFault(e, room) == Some(FailedTypeAssertion) ==> BareDepth(e) > room
    ensures FirstFault(e, room) == Some(SliceOutOfRange) ==> HasDotless(e)
    ensures FirstFault(e, room).Some? ==> FirstFault(e, room).value in {FailedTypeAssertion, SliceOutOfRange}
    decreases e
  {
    if !e.Logic? || room == 0 {
    } else {
      FaultExact(e.left, if e.left.Logic? && e.left.op == e.op then room else room - 1);
      FaultExact(e.right, if e.right.Logic? && e.right.op == e.op then room else room - 1);
    }
  }

  // ----- the same, on flattened runs

  function FlatFault(f: Flat, room: nat): Option<CedarError>
    decreases f, 0
  {
    match f
    case Leaf(e) => if HasDotless(e) then Some(SliceOutOfRange) else None
    case Multi(_, items) => if room == 0 then Some(FailedTypeAssertion) else ItemsFault(items, room - 1)
  }

  function ItemsFault(items: seq<Flat>, room: nat): Option<CedarError>
    decreases items, 1
  {
    if items == [] then None
    else match FlatFault(items[0], room)
      case Some(x) => Some(x)
      case None => ItemsFault(items[1..], room)
  }

  function Earlier(a: Option<CedarError>, b: Option<CedarError>): Option<CedarError> {
    if a.Some? then a else b
  }

  lemma {:induction false} ItemsFaultCat(a: seq<Flat>, b: seq<Flat>, room: nat)
    ensures ItemsFault(a + b, room) == Earlier(ItemsFault(a, room), ItemsFault(b, room))
  {
    if a == [] {
      assert a + b == b;
    } else {
      assert (a + b)[1..] == a[1..] + b;
      ItemsFaultCat(a[1..], b, room);
    }
  }

  lemma {:induction false} FlattenFault(e: Expr, room: nat)
    requires e.Logic? && room > 0
    ensures ItemsFault(Flatten(e), room - 1) == FirstFault(e, room)
    decreases e, 0
  {
    FlattenSideFault(e.left, e.op, room);
    FlattenSideFault(e.right, e.op, room);
    ItemsFaultCat(FlattenSide(e.left, e.op), FlattenSide(e.right, e.op), room - 1);
  }

  lemma {:induction false} FlattenSideFault(e: Expr, op: LogicOp, room: nat)
    requires room > 0
    ensures ItemsFault(FlattenSide(e, op), room - 1) == SideFault(e, op, room)
    decreases e, 1
  {
    if e.Logic? && e.op == op {
      FlattenFault(e, room);
    } else {
      var f := if e.Logic? then Multi(e.op, Flatten(e)) else Leaf(e);
      assert FlattenSide(e, op) == [f] && [f][1..] == [];
      if e.Logic? && room > 1 {
        FlattenFault(e, room - 1);
      }
    }
  }

  /** The result, as far as it fails. */
  function Fault<T>(r: Result<T, CedarError>): Option<CedarError> {
    match r
    case Ok(_) => None
    case Err(e) => Some(e)
  }

  lemma TextFault(e: Expr, isChild: bool)
    ensures Fault(MapFilterExpression(e, isChild)) == if HasDotless(e) then Some(SliceOutOfRange) else None
  {
    CedarSpells(e, isChild);
  }

  lemma {:induction false} LeafTextsFault(items: seq<Flat>)
    ensures Fault(LeafTexts(items)) == ItemsFault(items, 0)
  {
    if items == [] {
    } else {
      LeafTextsFault(items[1..]);
      if items[0].Leaf? {
        TextFault(items[0].e, true);
      }
    }
  }

  lemma {:induction false} OrTextsFault(items: seq<Flat>)
    ensures Fault(OrTexts(items)) == ItemsFault(items, 1)
  {
    if items == [] {
    } else {
      OrTextsFault(items[1..]);
      match items[0]
      case Leaf(e) => TextFault(e, true);
      case Multi(_, inner) => LeafTextsFault(inner);
    }
  }

  lemma ConditionClauseFault(e: Expr, isUnless: bool)
    requires !e.Logic?
    ensures Fault(MapToConditionClause(e, isUnless)) == if HasDotless(e) then Some(SliceOutOfRange) else None
  {
    TextFault(Inner(e), false);
  }

  lemma {:induction false} EachFault(items: seq<Flat>, isUnless: bool)
    requires forall i :: 0 <= i < |items| ==> WellFlat(items[i]) && (items[i].Multi? ==> items[i].op == Or)
    ensures Fault(MapEach(items, isUnless)) == ItemsFault(items, 2)
  {
    if items == [] {
    } else {
      EachFault(items[1..], isUnless);
      match items[0]
      case Leaf(e) => ConditionClauseFault(e, isUnless);
      case Multi(_, inner) => OrTextsFault(inner);
    }
  }

  /** How often the split part's bare logic may alternate. */
  function Room(x: Expr): nat {
    if x.Logic? && x.op == And then 3 else 2
  }

  /** Main result: for an accepted rule clauses are returned exactly when the split part has no bare
      `or` inside a bare `and` inside a bare `or` and no presence test stands on a path without a
      dot; otherwise the mapper panics on whichever comes first in the text. */
  lemma ReturnsExactly(rule: seq<Tok>, deny: bool)
    requires ParseTokens(rule).Ok?
    ensures var x := SplitPart(ParseTokens(rule).value);
      && (MapConditionToCedar(rule, deny).Ok? <==> BareDepth(x) <= Room(x) && !HasDotless(x))
      && Fault(MapConditionToCedar(rule, deny)) == FirstFault(x, Room(x))
  {
    var e := ParseTokens(rule).value;
    RunShape(rule, START);
    ParsedHasNoBareAndOr(e, true);
    var x := SplitPart(e);
    FaultExact(x, Room(x));
    if x.Logic? {
      FlattenIsWellFlat(x);
      FlattenFault(x, Room(x));
      if x.op == And {
        EachFault(Flatten(x), UnderUnless(e, deny));
      } else {
        OrTextsFault(Flatten(x));
      }
    } else if e.Attr? {
      ConditionClauseFault(e, deny);
    } else {
      ConditionClauseFault(x, UnderUnless(e, deny));
    }
  }

  /** A rule the parser refuses is handed back with the parser's own error, and no other is. */
  lemma RefusedExactly(rule: seq<Tok>, deny: bool)
    ensures forall e :: MapConditionToCedar(rule, deny) == Err(BadRule(e)) <==> ParseTokens(rule) == Err(e)
  {
    if ParseTokens(rule).Ok? {
      var x := SplitPart(ParseTokens(rule).value);
      ReturnsExactly(rule, deny);
      FaultExact(x, Room(x));
    }
  }
}
