/** Printing a parsed tree with String and parsing the text again gives the same tree. */
module ParserRetract {
  import opened Idql
  import Strings
  import opened Surface
  import opened Parser
  import opened ParserFold

  /** The text String() writes. */
  function PrintText(e: Expr): seq<LTok> {
    match e
    case Attr(a) => [TAtom(a)]
    case Not(x) => [TNot, TOpen] + PrintText(x) + [TClose]
    case Prec(x) => [TOpen] + PrintText(x) + [TClose]
    case Logic(op, l, r) => PrintText(l) + [OpTok(op)] + PrintText(r)
  }

  // ----- the trees the parser can return

  /** Some `not` was seen among the clauses of this level. */
  predicate HasNot(e: Expr) {
    match e
    case Attr(_) => false
    case Not(_) => true
    case Prec(_) => false
    case Logic(_, l, r) => HasNot(l) || HasNot(r)
  }

  /** Right operands are single clauses, and after a negated group no plain one follows. */
  predicate ParsedTree(e: Expr, last: bool) {
    match e
    case Attr(a) => WfAtom(a) && (last || !IsLogicWord(a.value))
    case Not(x) => ParsedTree(x, true)
    case Prec(x) => ParsedTree(x, true)
    case Logic(_, l, r) =>
      ParsedTree(l, false) && ParsedTree(r, last) && !r.Logic? && (HasNot(l) ==> !r.Prec?)
  }

  predicate ParsedClauses(cs: seq<Expr>) {
    && (forall i :: 0 <= i < |cs| ==> ParsedTree(cs[i], false))
    && (forall i :: 1 <= i < |cs| ==> !cs[i].Logic?)
    && (forall i, j :: 0 <= i < j < |cs| && HasNot(cs[i]) ==> !cs[j].Prec?)
  }

  predicate Invariant(st: State) {
    && ParsedClauses(st.clauses)
    && (!st.isNot ==> forall i :: 0 <= i < |st.clauses| ==> !HasNot(st.clauses[i]))
    && (st.attr != "" ==> !IsLogicWord(st.attr))
    && (st.cond != "" ==> st.isExpr)
    && (st.isValue ==> st.isExpr)
    && (st.isExpr ==> st.attr != "")
  }

  lemma CombineKeeps(st: State)
    requires Invariant(st)
    ensures Invariant(Combine(st))
  {}

  lemma PushKeeps(st: State, e: Expr)
    requires Invariant(st) && ParsedTree(e, false) && !e.Logic?
    requires e.Prec? ==> !st.isNot
    requires e.Not? ==> st.isNot
    ensures Invariant(st.(clauses := st.clauses + [e]))
  {
    var cs := st.clauses + [e];
    assert forall i :: 0 <= i < |st.clauses| ==> cs[i] == st.clauses[i];
  }

  lemma CreateKeeps(attr: string, cond: string, value: string)
    requires attr != "" && !IsLogicWord(attr) && value != "" && !EndsWithClose(value)
    ensures var r := CreateExpression(attr, cond, value);
      r.Ok? ==> (r.value.Attr? && ParsedTree(r.value, true)
                 && (!IsLogicWord(value) ==> ParsedTree(r.value, false)))
  {}

  lemma PushAtomKeeps(st: State, e: Expr)
    requires Invariant(st) && e.Attr? && ParsedTree(e, false)
    ensures Invariant(PushAtom(st, e))
  {
    PushKeeps(st, e);
  }

  lemma EndWordKeeps(st: State)
    requires Invariant(st)
    ensures EndWord(st).Ok? ==> Invariant(EndWord(st).value)
  {
    if st.word == "" || IsLogicWord(st.word) || (st.isAttr && st.attr == "") {
    } else if st.isExpr && st.cond == "" {
      if Strings.ToLower(st.word) == "pr" {
        PushAtomKeeps(st, Attr(Atom(st.attr, PR, "")));
      }
    } else if st.isValue && !EndsWithClose(st.word) {
      CreateKeeps(st.attr, st.cond, st.word);
      var r := CreateExpression(st.attr, st.cond, st.word);
      if r.Ok? {
        PushAtomKeeps(st, r.value);
      }
    }
  }

  lemma StepKeeps(st: State, t: Tok)
    requires Invariant(st) && (t != Open || st.isValue || st.word != "")
    ensures Step(st, t).Ok? ==> Invariant(Step(st, t).value)
  {
    if t == Sp {
      EndWordKeeps(st);
      if EndWord(st).Ok? {
        CombineKeeps(EndWord(st).value);
      }
    }
  }

  lemma FinishKeeps(st: State)
    requires Invariant(st) && Finish(st).Ok?
    ensures ParsedTree(Finish(st).value, true)
  {
    if st.word == "" {
      forall i | 0 <= i < |st.clauses| ensures ParsedTree(st.clauses[i], true) {
        Weaken(st.clauses[i]);
      }
    } else {
      if st.isAttr && st.cond != "" {
        CreateKeeps(st.attr, st.cond, st.word);
      }
    }
  }

  lemma Weaken(e: Expr)
    requires ParsedTree(e, false)
    ensures ParsedTree(e, true)
  {}

  /** Whatever text is accepted, the tree has the parsed shape. */
  lemma {:induction false} RunShape(ts: seq<Tok>, st: State)
    requires Invariant(st) && Run(ts, st).Ok?
    ensures ParsedTree(Run(ts, st).value, true)
    decreases |ts|
  {
    if ts == [] {
      FinishKeeps(st);
    } else if ts[0] == Open && !st.isValue && st.word == "" {
      var rest := ts[1..];
      var j := MatchClose(rest, 1);
      RunShape(rest[..j], START);
      var e := Run(rest[..j], START).value;
      PushKeeps(st, if st.isNot then Not(e) else Prec(e));
      CombineKeeps(PushGroup(st, e));
      RunShape(rest[j + 1..], Combine(PushGroup(st, e)));
    } else {
      StepKeeps(st, Head(ts));
      RunShape(ts[1..], Step(st, Head(ts)).value);
    }
  }

  // ----- a parsed tree is the fold of its own printed text

  function UnitOf(e: Expr): Unit
    decreases e, 0
  {
    match e
    case Attr(a) => UAtom(a)
    case Not(x) => UNot(UGroup(LevelOf(x)))
    case Prec(x) => UGroup(LevelOf(x))
    case Logic(_, _, r) => UnitOf(r)
  }

  function LevelOf(e: Expr): Level
    decreases e, 1
  {
    match e
    case Logic(op, l, r) => JoinLevels(LevelOf(l), op, Single(UnitOf(r)))
    case _ => Single(UnitOf(e))
  }

  lemma {:induction false} FoldSnoc(acc: Expr, r: Rest, sticky: bool, op: LogicOp, u: Unit)
    ensures FoldRest(acc, JoinRest(r, op, Single(u)), sticky)
         == Logic(op, FoldRest(acc, r, sticky), FoldUnit(u, StickyAfter(r, sticky)))
    ensures StickyAfter(JoinRest(r, op, Single(u)), sticky) == (StickyAfter(r, sticky) || u.UNot?)
    decreases r
  {
    match r
    case End =>
    case More(o, x, tl) => FoldSnoc(Logic(o, acc, FoldUnit(x, sticky)), tl, sticky || x.UNot?, op, u);
  }

  lemma {:induction false} WfSnoc(r: Rest, op: LogicOp, u: Unit, last: bool)
    requires WfRest(r, false) && WfUnit(u, last)
    ensures WfRest(JoinRest(r, op, Single(u)), last)
    decreases r
  {
    match r
    case End =>
    case More(_, _, tl) => WfSnoc(tl, op, u, last);
  }

  lemma {:induction false} LevelOfParsed(e: Expr, last: bool)
    requires ParsedTree(e, last)
    ensures WfLevel(LevelOf(e), last) && FoldLevel(LevelOf(e)) == e
    ensures StickyAfter(LevelOf(e).rest, LevelOf(e).first.UNot?) == HasNot(e)
    ensures LevelText(LevelOf(e)) == PrintText(e)
    decreases e
  {
    match e
    case Attr(_) =>
    case Not(x) =>
      LevelOfParsed(x, true);
      var g := UGroup(LevelOf(x));
      assert FoldUnit(g, true) == e;
      assert UnitText(g) == [TOpen] + PrintText(x) + [TClose];
      assert LevelText(LevelOf(e)) == [TNot] + UnitText(g);
    case Prec(x) => LevelOfParsed(x, true);
    case Logic(op, l, r) =>
      LevelOfParsed(l, false);
      LevelOfParsed(r, last);
      var lv := LevelOf(l);
      FoldSnoc(FoldUnit(lv.first, false), lv.rest, lv.first.UNot?, op, UnitOf(r));
      WfSnoc(lv.rest, op, UnitOf(r), last);
      JoinText(lv, op, Single(UnitOf(r)));
  }

  /** Main result: parsing is a retraction. Whatever token sequence ParseFilter accepts,
      the String of the tree parses back to that very tree. */
  lemma ParsePrintParse(ts: seq<Tok>)
    requires ParseTokens(ts).Ok?
    ensures ParseTokens(Spell(PrintText(ParseTokens(ts).value), true)) == ParseTokens(ts)
  {
    RunShape(ts, START);
    var e := ParseTokens(ts).value;
    LevelOfParsed(e, true);
    ParseIsLeftFold(LevelOf(e), true);
  }

  /** The trees that survive printing and parsing are exactly the parser's own results:
      the shape is not only kept, it is all there is. */
  lemma ParsedShapeExact(e: Expr)
    ensures ParsedTree(e, true) <==> exists ts :: ParseTokens(ts) == Ok(e)
  {
    if ParsedTree(e, true) {
      LevelOfParsed(e, true);
      ParseIsLeftFold(LevelOf(e), true);
      assert ParseTokens(Spell(PrintText(e), true)) == Ok(e);
    }
    if ts :| ParseTokens(ts) == Ok(e) {
      RunShape(ts, START);
    }
  }
}
