/** Condition text at the level of brackets and logical words, shared by IDQL, CEL and Cedar.

    A `Level` is what stands between two matching brackets: units joined by `and`/`or` in
    the order they are written. `ReadText` recovers it from the text; `PrecEval` gives it
    the meaning all three languages prescribe, `and` binding tighter than `or`
    (RFC 7644 section 3.4.2.2; the CEL language definition, section "Syntax"; the Cedar grammar).
    A comparison is one unit. CEL lets a `!` directly before a relation belong to its left operand,
    so that it makes another comparison: that reading is in `CelNegation`. */
module Surface {
  import opened Collections
  import opened Idql

  datatype LTok = TAtom(atom: Atom) | TAnd | TOr | TNot | TOpen | TClose

  datatype Unit = UAtom(atom: Atom) | UNot(arg: Unit) | UGroup(body: Level)
  datatype Level = Level(first: Unit, rest: Rest)
  datatype Rest = End | More(op: LogicOp, next: Unit, tail: Rest)

  // ----- text of a level

  function OpTok(op: LogicOp): LTok {
    match op
    case And => TAnd
    case Or => TOr
  }

  function UnitText(u: Unit): seq<LTok> {
    match u
    case UAtom(a) => [TAtom(a)]
    case UNot(x) => [TNot] + UnitText(x)
    case UGroup(lv) => [TOpen] + LevelText(lv) + [TClose]
  }

  function LevelText(lv: Level): seq<LTok> {
    UnitText(lv.first) + RestText(lv.rest)
  }

  function RestText(r: Rest): seq<LTok> {
    match r
    case End => []
    case More(op, u, tl) => [OpTok(op)] + UnitText(u) + RestText(tl)
  }

  // ----- the reader

  function ReadUnit(ts: seq<LTok>): (r: Option<(Unit, seq<LTok>)>)
    ensures r.Some? ==> |r.value.1| < |ts|
    decreases |ts|, 0
  {
    if ts == [] then None
    else match ts[0]
      case TAtom(a) => Some((UAtom(a), ts[1..]))
      case TNot =>
        (match ReadUnit(ts[1..])
         case None => None
         case Some((u, k)) => Some((UNot(u), k)))
      case TOpen =>
        (match ReadLevel(ts[1..])
         case None => None
         case Some((lv, k)) => if k != [] && k[0] == TClose then Some((UGroup(lv), k[1..])) else None)
      case _ => None
  }

  function ReadLevel(ts: seq<LTok>): (r: Option<(Level, seq<LTok>)>)
    ensures r.Some? ==> |r.value.1| < |ts|
    decreases |ts|, 1
  {
    match ReadUnit(ts)
    case None => None
    case Some((u, k)) =>
      match ReadRest(k)
      case None => None
      case Some((rest, k')) => Some((Level(u, rest), k'))
  }

  function ReadRest(ts: seq<LTok>): (r: Option<(Rest, seq<LTok>)>)
    ensures r.Some? ==> |r.value.1| <= |ts|
    decreases |ts|, 1
  {
    if ts == [] || (ts[0] != TAnd && ts[0] != TOr) then Some((End, ts))
    else match ReadUnit(ts[1..])
      case None => None
      case Some((u, k)) =>
        match ReadRest(k)
        case None => None
        case Some((rest, k')) => Some((More(if ts[0] == TAnd then And else Or, u, rest), k'))
  }

  /** Reads a whole text, or None when it is not well formed. */
  function ReadText(ts: seq<LTok>): Option<Level> {
    match ReadLevel(ts)
    case Some((lv, k)) => if k == [] then Some(lv) else None
    case None => None
  }

  predicate Stops(k: seq<LTok>) {
    k == [] || (k[0] != TAnd && k[0] != TOr)
  }

  lemma {:induction false} ReadUnitText(u: Unit, k: seq<LTok>)
    ensures ReadUnit(UnitText(u) + k) == Some((u, k))
    decreases u
  {
    var ts := UnitText(u) + k;
    match u
    case UAtom(a) => assert ts[1..] == k;
    case UNot(x) =>
      assert ts[1..] == UnitText(x) + k;
      ReadUnitText(x, k);
    case UGroup(lv) =>
      assert ts[1..] == LevelText(lv) + ([TClose] + k);
      ReadLevelText(lv, [TClose] + k);
      assert ([TClose] + k)[1..] == k;
  }

  lemma {:induction false} ReadLevelText(lv: Level, k: seq<LTok>)
    requires Stops(k)
    ensures ReadLevel(LevelText(lv) + k) == Some((lv, k))
    decreases lv
  {
    assert LevelText(lv) + k == UnitText(lv.first) + (RestText(lv.rest) + k);
    ReadUnitText(lv.first, RestText(lv.rest) + k);
    ReadRestText(lv.rest, k);
  }

  lemma {:induction false} ReadRestText(r: Rest, k: seq<LTok>)
    requires Stops(k)
    ensures ReadRest(RestText(r) + k) == Some((r, k))
    decreases r
  {
    match r
    case End => assert RestText(r) + k == k;
    case More(op, u, tl) =>
      var ts := RestText(r) + k;
      assert ts[1..] == UnitText(u) + (RestText(tl) + k);
      ReadUnitText(u, RestText(tl) + k);
      ReadRestText(tl, k);
  }

  /** Reading undoes writing: a level is the only reading of its own text. */
  lemma ReadTextInverse(lv: Level)
    ensures ReadText(LevelText(lv)) == Some(lv)
  {
    assert LevelText(lv) + [] == LevelText(lv);
    ReadLevelText(lv, []);
  }

  // ----- counting brackets

  /** How many brackets are opened. */
  function Opens(ts: seq<LTok>): nat {
    if ts == [] then 0 else One(ts[0] == TOpen) + Opens(ts[1..])
  }

  lemma {:induction false} OpensCat(a: seq<LTok>, b: seq<LTok>)
    ensures Opens(a + b) == Opens(a) + Opens(b)
  {
    if a == [] {
      assert a + b == b;
    } else {
      assert (a + b)[1..] == a[1..] + b;
      OpensCat(a[1..], b);
    }
  }

  function UnitGroups(u: Unit): nat {
    match u
    case UAtom(_) => 0
    case UNot(x) => UnitGroups(x)
    case UGroup(b) => 1 + Groups(b)
  }

  function Groups(lv: Level): nat {
    UnitGroups(lv.first) + RestGroups(lv.rest)
  }

  function RestGroups(r: Rest): nat {
    match r
    case End => 0
    case More(_, u, tl) => UnitGroups(u) + RestGroups(tl)
  }

  lemma {:induction false} UnitOpens(u: Unit)
    ensures Opens(UnitText(u)) == UnitGroups(u)
    decreases u
  {
    match u
    case UAtom(a) => assert [TAtom(a)][1..] == [];
    case UNot(x) =>
      OpensCat([TNot], UnitText(x));
      assert [TNot][1..] == [];
      UnitOpens(x);
    case UGroup(b) =>
      OpensCat([TOpen] + LevelText(b), [TClose]);
      OpensCat([TOpen], LevelText(b));
      assert [TOpen][1..] == [TClose][1..] == [];
      LevelOpens(b);
  }

  lemma {:induction false} LevelOpens(lv: Level)
    ensures Opens(LevelText(lv)) == Groups(lv)
    decreases lv
  {
    OpensCat(UnitText(lv.first), RestText(lv.rest));
    UnitOpens(lv.first);
    RestOpens(lv.rest);
  }

  lemma {:induction false} RestOpens(r: Rest)
    ensures Opens(RestText(r)) == RestGroups(r)
    decreases r
  {
    match r
    case End =>
    case More(op, u, tl) =>
      OpensCat([OpTok(op)] + UnitText(u), RestText(tl));
      OpensCat([OpTok(op)], UnitText(u));
      assert [OpTok(op)][1..] == [];
      UnitOpens(u);
      RestOpens(tl);
  }

  lemma {:induction false} JoinGroups(l: Level, op: LogicOp, r: Level)
    ensures Groups(JoinLevels(l, op, r)) == Groups(l) + Groups(r)
  {
    JoinRestGroups(l.rest, op, r);
  }

  lemma {:induction false} JoinRestGroups(l: Rest, op: LogicOp, r: Level)
    ensures RestGroups(JoinRest(l, op, r)) == RestGroups(l) + Groups(r)
  {
    if l.More? {
      JoinRestGroups(l.tail, op, r);
    }
  }

  // ----- meaning: `and` binds tighter than `or`

  predicate UnitEval(u: Unit, v: Valuation)
    decreases u
  {
    match u
    case UAtom(a) => v(a)
    case UNot(x) => !UnitEval(x, v)
    case UGroup(lv) => PrecEval(lv, v)
  }

  predicate PrecEval(lv: Level, v: Valuation)
    decreases lv
  {
    TermsEval(UnitEval(lv.first, v), lv.rest, v)
  }

  /** `term` is the and-term read so far; each `or` closes it and opens the next. */
  predicate TermsEval(term: bool, r: Rest, v: Valuation)
    decreases r
  {
    match r
    case End => term
    case More(And, u, tl) => TermsEval(term && UnitEval(u, v), tl, v)
    case More(Or, u, tl) => term || TermsEval(UnitEval(u, v), tl, v)
  }

  /** What a text means under the reference reading; None when it cannot be read. */
  function TextMeaning(ts: seq<LTok>, v: Valuation): Option<bool> {
    match ReadText(ts)
    case None => None
    case Some(lv) => Some(PrecEval(lv, v))
  }

  lemma LevelMeaning(lv: Level, v: Valuation)
    ensures TextMeaning(LevelText(lv), v) == Some(PrecEval(lv, v))
  {
    ReadTextInverse(lv);
  }

  // ----- joining levels, as writing `l op r` without brackets does

  function JoinLevels(l: Level, op: LogicOp, r: Level): Level {
    Level(l.first, JoinRest(l.rest, op, r))
  }

  function JoinRest(l: Rest, op: LogicOp, r: Level): Rest {
    match l
    case End => More(op, r.first, r.rest)
    case More(o, u, tl) => More(o, u, JoinRest(tl, op, r))
  }

  function Single(u: Unit): Level {
    Level(u, End)
  }

  /** No `or` at this level: the text is one and-term. */
  predicate OneTerm(lv: Level) {
    NoOr(lv.rest)
  }

  predicate NoOr(r: Rest) {
    match r
    case End => true
    case More(op, _, tl) => op == And && NoOr(tl)
  }

  lemma {:induction false} JoinText(l: Level, op: LogicOp, r: Level)
    ensures LevelText(JoinLevels(l, op, r)) == LevelText(l) + [OpTok(op)] + LevelText(r)
  {
    JoinRestText(l.rest, op, r);
  }

  lemma {:induction false} JoinRestText(l: Rest, op: LogicOp, r: Level)
    ensures RestText(JoinRest(l, op, r)) == RestText(l) + [OpTok(op)] + LevelText(r)
  {
    match l
    case End =>
    case More(o, u, tl) =>
      JoinRestText(tl, op, r);
  }

  lemma {:induction false} JoinNoOr(l: Rest, op: LogicOp, r: Level)
    ensures NoOr(JoinRest(l, op, r)) <==> NoOr(l) && op == And && OneTerm(r)
  {
    match l
    case End =>
    case More(_, _, tl) => JoinNoOr(tl, op, r);
  }

  lemma {:induction false} JoinOrRest(term: bool, l: Rest, r: Level, v: Valuation)
    ensures TermsEval(term, JoinRest(l, Or, r), v) == (TermsEval(term, l, v) || PrecEval(r, v))
    decreases l
  {
    match l
    case End =>
    case More(And, u, tl) => JoinOrRest(term && UnitEval(u, v), tl, r, v);
    case More(Or, u, tl) => JoinOrRest(UnitEval(u, v), tl, r, v);
  }

  lemma {:induction false} AndTermEval(term: bool, r: Rest, v: Valuation)
    requires NoOr(r)
    ensures TermsEval(term, r, v) == (term && TermsEval(true, r, v))
    decreases r
  {
    match r
    case End =>
    case More(_, u, tl) =>
      AndTermEval(term && UnitEval(u, v), tl, v);
      AndTermEval(UnitEval(u, v), tl, v);
  }

  lemma {:induction false} JoinAndRest(term: bool, l: Rest, r: Level, v: Valuation)
    requires NoOr(l) && OneTerm(r)
    ensures TermsEval(term, JoinRest(l, And, r), v) == (TermsEval(term, l, v) && PrecEval(r, v))
  {
    match l
    case End =>
      AndTermEval(term && UnitEval(r.first, v), r.rest, v);
      AndTermEval(UnitEval(r.first, v), r.rest, v);
    case More(_, u, tl) => JoinAndRest(term && UnitEval(u, v), tl, r, v);
  }

  /** Writing `l op r` without brackets means what it should when `op` is `or`, or when
      neither side holds an `or` of its own. */
  lemma JoinEval(l: Level, op: LogicOp, r: Level, v: Valuation)
    requires op == And ==> OneTerm(l) && OneTerm(r)
    ensures PrecEval(JoinLevels(l, op, r), v) == Apply(op, PrecEval(l, v), PrecEval(r, v))
    ensures op == And ==> OneTerm(JoinLevels(l, op, r))
  {
    if op == Or {
      JoinOrRest(UnitEval(l.first, v), l.rest, r, v);
    } else {
      JoinAndRest(UnitEval(l.first, v), l.rest, r, v);
      JoinNoOr(l.rest, op, r);
    }
  }

  // ----- the grammar's own parse trees

  /** `t` is a parse tree of `lv` under the ambiguous grammar
      Or := Or "or" Or | And,  And := And "and" And | Unit,  Unit := atom | "not" Unit | "(" Or ")":
      any grouping of a run of one operator, brackets kept as `Prec`. */
  ghost predicate TreeOf(lv: Level, t: Expr)
    decreases t, 2
  {
    || TermTreeOf(lv, t)
    || (t.Logic? && t.op == Or
        && exists l, r :: lv == JoinLevels(l, Or, r) && TreeOf(l, t.left) && TreeOf(r, t.right))
  }

  ghost predicate TermTreeOf(lv: Level, t: Expr)
    decreases t, 1
  {
    || (lv.rest == End && UnitTreeOf(lv.first, t))
    || (t.Logic? && t.op == And
        && exists l, r :: lv == JoinLevels(l, And, r) && TermTreeOf(l, t.left) && TermTreeOf(r, t.right))
  }

  ghost predicate UnitTreeOf(u: Unit, t: Expr)
    decreases t, 0
  {
    match u
    case UAtom(a) => t == Attr(a)
    case UNot(x) => t.Not? && UnitTreeOf(x, t.arg)
    case UGroup(b) => t.Prec? && TreeOf(b, t.body)
  }

  /** Every parse tree of a level, however its runs are grouped, has the level's meaning. */
  lemma {:induction false} TreeOfEval(lv: Level, t: Expr, v: Valuation)
    requires TreeOf(lv, t)
    ensures Eval(t, v) == PrecEval(lv, v)
    decreases t, 2
  {
    if TermTreeOf(lv, t) {
      TermTreeOfEval(lv, t, v);
    } else {
      var l, r :| lv == JoinLevels(l, Or, r) && TreeOf(l, t.left) && TreeOf(r, t.right);
      TreeOfEval(l, t.left, v);
      TreeOfEval(r, t.right, v);
      JoinEval(l, Or, r, v);
    }
  }

  lemma {:induction false} TermTreeOfEval(lv: Level, t: Expr, v: Valuation)
    requires TermTreeOf(lv, t)
    ensures OneTerm(lv) && Eval(t, v) == PrecEval(lv, v)
    decreases t, 1
  {
    if lv.rest == End && UnitTreeOf(lv.first, t) {
      UnitTreeOfEval(lv.first, t, v);
    } else {
      var l, r :| lv == JoinLevels(l, And, r) && TermTreeOf(l, t.left) && TermTreeOf(r, t.right);
      TermTreeOfEval(l, t.left, v);
      TermTreeOfEval(r, t.right, v);
      JoinEval(l, And, r, v);
    }
  }

  lemma {:induction false} UnitTreeOfEval(u: Unit, t: Expr, v: Valuation)
    requires UnitTreeOf(u, t)
    ensures Eval(t, v) == UnitEval(u, v)
    decreases t, 0
  {
    match u
    case UAtom(_) =>
    case UNot(x) => UnitTreeOfEval(x, t.arg, v);
    case UGroup(b) => TreeOfEval(b, t.body, v);
  }

  /** The right-nested tree, and the fact that it is one of the grammar's. */
  function RightTree(lv: Level): Expr
    decreases lv
  {
    RightTerms(UnitTree(lv.first), lv.rest)
  }

  function RightTerms(t: Expr, r: Rest): Expr
    decreases r
  {
    match r
    case End => t
    case More(And, u, tl) => RightTerms(Logic(And, t, UnitTree(u)), tl)
    case More(Or, u, tl) => Logic(Or, t, RightTerms(UnitTree(u), tl))
  }

  function UnitTree(u: Unit): Expr
    decreases u
  {
    match u
    case UAtom(a) => Attr(a)
    case UNot(x) => Not(UnitTree(x))
    case UGroup(b) => Prec(RightTree(b))
  }

  lemma {:induction false} RightTermsIsTree(lv: Level, t: Expr, r: Rest)
    requires TermTreeOf(lv, t)
    ensures TreeOf(Level(lv.first, Append(lv.rest, r)), RightTerms(t, r))
    decreases r
  {
    match r
    case End => AppendEnd(lv.rest);
    case More(And, u, tl) =>
      UnitTreeIsTree(u);
      var lv' := JoinLevels(lv, And, Single(u));
      assert TermTreeOf(Single(u), UnitTree(u));
      AppendJoin(lv.rest, And, u, tl);
      RightTermsIsTree(lv', Logic(And, t, UnitTree(u)), tl);
    case More(Or, u, tl) =>
      UnitTreeIsTree(u);
      assert TermTreeOf(Single(u), UnitTree(u));
      RightTermsIsTree(Single(u), UnitTree(u), tl);
      AppendJoinLevel(lv.rest, Or, u, tl);
      assert Level(lv.first, Append(lv.rest, r)) == JoinLevels(lv, Or, Level(u, tl));
  }

  lemma {:induction false} UnitTreeIsTree(u: Unit)
    ensures UnitTreeOf(u, UnitTree(u))
    decreases u
  {
    match u
    case UAtom(_) =>
    case UNot(x) => UnitTreeIsTree(x);
    case UGroup(b) => RightTreeIsTree(b);
  }

  /** Every level has a parse tree. */
  lemma {:induction false} RightTreeIsTree(lv: Level)
    ensures TreeOf(lv, RightTree(lv))
    decreases lv
  {
    UnitTreeIsTree(lv.first);
    RightTermsIsTree(Single(lv.first), UnitTree(lv.first), lv.rest);
  }

  function Append(a: Rest, b: Rest): Rest {
    match a
    case End => b
    case More(op, u, tl) => More(op, u, Append(tl, b))
  }

  lemma AppendEnd(a: Rest)
    ensures Append(a, End) == a
  {}

  lemma AppendJoin(a: Rest, op: LogicOp, u: Unit, b: Rest)
    ensures Append(JoinRest(a, op, Single(u)), b) == Append(a, More(op, u, b))
  {}

  lemma AppendJoinLevel(a: Rest, op: LogicOp, u: Unit, b: Rest)
    ensures Append(a, More(op, u, b)) == JoinRest(a, op, Level(u, b))
  {}
}
