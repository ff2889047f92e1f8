/** IDQL condition trees and the two things every later module needs of them:
    what a tree means, and a result type for operations that can refuse their input. */
module Idql {

  datatype Result<+T, +E> = Ok(value: T) | Err(error: E)

  datatype Option<+T> = None | Some(value: T)

  datatype CompareOp = EQ | NE | SW | EW | GT | LT | GE | LE | CO | IN | PR | IS

  /** An attribute comparison. `value` is empty for PR. */
  datatype Atom = Atom(path: string, op: CompareOp, value: string)

  /** How an empty string is written. */
  const EMPTY := "\"\""

  datatype LogicOp = And | Or

  /** `Prec` is a bracketed sub-expression that is kept in the tree. */
  datatype Expr =
    | Attr(atom: Atom)
    | Not(arg: Expr)
    | Prec(body: Expr)
    | Logic(op: LogicOp, left: Expr, right: Expr)

  /** The truth of each comparison in some request. */
  type Valuation = Atom -> bool

  predicate Apply(op: LogicOp, a: bool, b: bool) {
    match op
    case And => a && b
    case Or => a || b
  }

  predicate IsOr(e: Expr) {
    e.Logic? && e.op == Or
  }

  predicate Eval(e: Expr, v: Valuation) {
    match e
    case Attr(a) => v(a)
    case Not(x) => !Eval(x, v)
    case Prec(x) => Eval(x, v)
    case Logic(op, l, r) => Apply(op, Eval(l, v), Eval(r, v))
  }

  // ----- trees in which no comparison occurs twice

  function AtomsOf(e: Expr): set<Atom> {
    match e
    case Attr(a) => {a}
    case Not(x) => AtomsOf(x)
    case Prec(x) => AtomsOf(x)
    case Logic(_, l, r) => AtomsOf(l) + AtomsOf(r)
  }

  predicate ReadOnce(e: Expr) {
    match e
    case Attr(_) => true
    case Not(x) => ReadOnce(x)
    case Prec(x) => ReadOnce(x)
    case Logic(_, l, r) => ReadOnce(l) && ReadOnce(r) && AtomsOf(l) !! AtomsOf(r)
  }

  function Override(s: set<Atom>, v: Valuation, w: Valuation): Valuation {
    a => if a in s then v(a) else w(a)
  }

  /** A tree's meaning depends on its own comparisons only. */
  lemma {:induction false} EvalLocal(e: Expr, v: Valuation, w: Valuation)
    requires forall a :: a in AtomsOf(e) ==> v(a) == w(a)
    ensures Eval(e, v) == Eval(e, w)
  {
    match e
    case Attr(_) =>
    case Not(x) => EvalLocal(x, v, w);
    case Prec(x) => EvalLocal(x, v, w);
    case Logic(_, l, r) => EvalLocal(l, v, w); EvalLocal(r, v, w);
  }

  /** A tree in which no comparison occurs twice can be made true and can be made false. */
  lemma {:induction false} Realize(e: Expr, b: bool) returns (v: Valuation)
    requires ReadOnce(e)
    ensures Eval(e, v) == b
  {
    match e
    case Attr(a) => v := x => b;
    case Not(x) => v := Realize(x, !b);
    case Prec(x) => v := Realize(x, b);
    case Logic(_, l, r) =>
      var v1 := Realize(l, b);
      var v2 := Realize(r, b);
      v := Override(AtomsOf(l), v1, v2);
      EvalLocal(l, v, v1);
      EvalLocal(r, v, v2);
  }

  function Set(v: Valuation, a: Atom, b: bool): Valuation {
    x => if x == a then b else v(x)
  }

  /** Such a tree depends on each of its comparisons. */
  lemma {:induction false} Sensitive(e: Expr, a: Atom) returns (v: Valuation)
    requires ReadOnce(e) && a in AtomsOf(e)
    ensures Eval(e, Set(v, a, true)) != Eval(e, Set(v, a, false))
  {
    match e
    case Attr(_) => v := x => true;
    case Not(x) => v := Sensitive(x, a);
    case Prec(x) => v := Sensitive(x, a);
    case Logic(op, l, r) =>
      var x, y := if a in AtomsOf(l) then l else r, if a in AtomsOf(l) then r else l;
      var vx := Sensitive(x, a);
      var vy := Realize(y, op == And);
      v := Override(AtomsOf(x), vx, vy);
      SetLocal(x, y, a, vx, vy, true);
      SetLocal(x, y, a, vx, vy, false);
  }

  lemma SetLocal(x: Expr, y: Expr, a: Atom, vx: Valuation, vy: Valuation, b: bool)
    requires a in AtomsOf(x) && AtomsOf(x) !! AtomsOf(y)
    ensures Eval(x, Set(Override(AtomsOf(x), vx, vy), a, b)) == Eval(x, Set(vx, a, b))
    ensures Eval(y, Set(Override(AtomsOf(x), vx, vy), a, b)) == Eval(y, vy)
  {
    var v := Set(Override(AtomsOf(x), vx, vy), a, b);
    EvalLocal(x, v, Set(vx, a, b));
    EvalLocal(y, v, vy);
  }
}
