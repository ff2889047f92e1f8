/** Texts in which no comparison occurs twice: their units can be given any truth values. */
module Once {
  import opened Idql
  import opened Surface

  function UnitAtoms(u: Unit): set<Atom> {
    match u
    case UAtom(a) => {a}
    case UNot(x) => UnitAtoms(x)
    case UGroup(b) => LevelAtoms(b)
  }

  function LevelAtoms(lv: Level): set<Atom> {
    UnitAtoms(lv.first) + RestAtoms(lv.rest)
  }

  function RestAtoms(r: Rest): set<Atom> {
    match r
    case End => {}
    case More(_, u, tl) => UnitAtoms(u) + RestAtoms(tl)
  }

  predicate UnitOnce(u: Unit) {
    match u
    case UAtom(_) => true
    case UNot(x) => UnitOnce(x)
    case UGroup(b) => LevelOnce(b)
  }

  predicate LevelOnce(lv: Level) {
    UnitOnce(lv.first) && UnitAtoms(lv.first) !! RestAtoms(lv.rest) && RestOnce(lv.rest)
  }

  predicate RestOnce(r: Rest) {
    match r
    case End => true
    case More(_, u, tl) => UnitOnce(u) && UnitAtoms(u) !! RestAtoms(tl) && RestOnce(tl)
  }

  lemma {:induction false} JoinAtoms(l: Rest, op: LogicOp, r: Level)
    ensures RestAtoms(JoinRest(l, op, r)) == RestAtoms(l) + LevelAtoms(r)
    decreases l
  {
    match l
    case End =>
    case More(_, _, tl) => JoinAtoms(tl, op, r);
  }

  lemma {:induction false} JoinOnce(l: Rest, op: LogicOp, r: Level)
    requires RestOnce(l) && LevelOnce(r) && RestAtoms(l) !! LevelAtoms(r)
    ensures RestOnce(JoinRest(l, op, r))
    decreases l
  {
    match l
    case End =>
    case More(_, _, tl) =>
      JoinAtoms(tl, op, r);
      JoinOnce(tl, op, r);
  }

  // ----- a text's meaning depends on its own comparisons only

  predicate Agree(s: set<Atom>, v: Valuation, w: Valuation) {
    forall a | a in s :: v(a) == w(a)
  }

  lemma {:induction false} UnitLocal(u: Unit, v: Valuation, w: Valuation, s: set<Atom>)
    requires Agree(s, v, w) && UnitAtoms(u) <= s
    ensures UnitEval(u, v) == UnitEval(u, w)
    decreases u
  {
    match u
    case UAtom(_) =>
    case UNot(x) => UnitLocal(x, v, w, s);
    case UGroup(b) =>
      UnitLocal(b.first, v, w, s);
      RestLocal(b.rest, v, w, s);
      assert PrecEval(b, v) == PrecEval(b, w);
  }

  lemma {:induction false} RestLocal(r: Rest, v: Valuation, w: Valuation, s: set<Atom>)
    requires Agree(s, v, w) && RestAtoms(r) <= s
    ensures forall t :: TermsEval(t, r, v) == TermsEval(t, r, w)
    ensures forall b :: RestAre(r, b, v) <==> RestAre(r, b, w)
    decreases r
  {
    match r
    case End =>
    case More(_, u, tl) =>
      UnitLocal(u, v, w, s);
      RestLocal(tl, v, w, s);
  }

  // ----- levels all of whose units have one truth value

  predicate AllAre(lv: Level, b: bool, v: Valuation) {
    UnitEval(lv.first, v) == b && RestAre(lv.rest, b, v)
  }

  predicate RestAre(r: Rest, b: bool, v: Valuation) {
    match r
    case End => true
    case More(_, u, tl) => UnitEval(u, v) == b && RestAre(tl, b, v)
  }

  lemma {:induction false} RestAreEval(b: bool, r: Rest, v: Valuation)
    requires RestAre(r, b, v)
    ensures TermsEval(b, r, v) == b
    decreases r
  {
    match r
    case End =>
    case More(_, u, tl) => RestAreEval(b, tl, v);
  }

  /** Every text of this kind can be made true and can be made false. */
  lemma {:induction false} RealizeUnit(u: Unit, b: bool) returns (v: Valuation)
    requires UnitOnce(u)
    ensures UnitEval(u, v) == b
    decreases u
  {
    match u
    case UAtom(_) => v := a => b;
    case UNot(x) => v := RealizeUnit(x, !b);
    case UGroup(lv) =>
      var v1 := RealizeUnit(lv.first, b);
      var v2 := RealizeRest(lv.rest, b);
      v := Override(UnitAtoms(lv.first), v1, v2);
      UnitLocal(lv.first, v, v1, UnitAtoms(lv.first));
      RestLocal(lv.rest, v, v2, RestAtoms(lv.rest));
      RestAreEval(b, lv.rest, v);
      assert PrecEval(lv, v) == b;
  }

  lemma {:induction false} RealizeRest(r: Rest, b: bool) returns (v: Valuation)
    requires RestOnce(r)
    ensures RestAre(r, b, v)
    decreases r
  {
    match r
    case End => v := a => b;
    case More(_, u, tl) =>
      var v1 := RealizeUnit(u, b);
      var v2 := RealizeRest(tl, b);
      v := Override(UnitAtoms(u), v1, v2);
      UnitLocal(u, v, v1, UnitAtoms(u));
      RestLocal(tl, v, v2, RestAtoms(tl));
  }

  // ----- parse trees have the comparisons of their text

  lemma {:induction false} TreeAtoms(lv: Level, t: Expr)
    requires TreeOf(lv, t)
    ensures AtomsOf(t) == LevelAtoms(lv)
    decreases t, 2
  {
    if TermTreeOf(lv, t) {
      TermTreeAtoms(lv, t);
    } else {
      var l, r :| lv == JoinLevels(l, Or, r) && TreeOf(l, t.left) && TreeOf(r, t.right);
      TreeAtoms(l, t.left);
      TreeAtoms(r, t.right);
      JoinAtoms(l.rest, Or, r);
    }
  }

  lemma {:induction false} TermTreeAtoms(lv: Level, t: Expr)
    requires TermTreeOf(lv, t)
    ensures AtomsOf(t) == LevelAtoms(lv)
    decreases t, 1
  {
    if lv.rest == End && UnitTreeOf(lv.first, t) {
      UnitTreeAtoms(lv.first, t);
    } else {
      var l, r :| lv == JoinLevels(l, And, r) && TermTreeOf(l, t.left) && TermTreeOf(r, t.right);
      TermTreeAtoms(l, t.left);
      TermTreeAtoms(r, t.right);
      JoinAtoms(l.rest, And, r);
    }
  }

  lemma {:induction false} UnitTreeAtoms(u: Unit, t: Expr)
    requires UnitTreeOf(u, t)
    ensures AtomsOf(t) == UnitAtoms(u)
    decreases t, 0
  {
    match u
    case UAtom(_) =>
    case UNot(x) => UnitTreeAtoms(x, t.arg);
    case UGroup(b) => TreeAtoms(b, t.body);
  }
}
