/** The CEL emitter's missing brackets, exactly: for a tree in which no comparison occurs twice,
    text and tree agree under every valuation if and only if the bad shape occurs nowhere. A `!`
    before a comparison negates it here; `CelNegation` has CEL's own reading of that. */
module CelExact {
  import opened Idql
  import opened Surface
  import opened Once
  import opened Cel

  // ----- joining levels all of whose units have one truth value

  lemma {:induction false} JoinAre(l: Rest, op: LogicOp, r: Level, b: bool, v: Valuation)
    requires RestAre(l, b, v) && AllAre(r, b, v)
    ensures RestAre(JoinRest(l, op, r), b, v)
    decreases l
  {
    match l
    case End =>
    case More(_, _, tl) => JoinAre(tl, op, r, b, v);
  }

  lemma {:induction false} JoinAssoc(a: Rest, b: Level, c: Level)
    ensures JoinRest(a, And, JoinLevels(b, Or, c)) == JoinRest(JoinRest(a, And, b), Or, c)
    decreases a
  {
    match a
    case End =>
    case More(_, _, tl) => JoinAssoc(tl, b, c);
  }

  /** A true level stays true when levels of true units are joined to it with `and`. */
  lemma {:induction false} JoinTrueRight(t: bool, l: Rest, r: Level, v: Valuation)
    requires TermsEval(t, l, v) && AllAre(r, true, v)
    ensures TermsEval(t, JoinRest(l, And, r), v)
    decreases l
  {
    match l
    case End => RestAreEval(true, r.rest, v);
    case More(And, u, tl) => JoinTrueRight(t && UnitEval(u, v), tl, r, v);
    case More(Or, u, tl) => if !t { JoinTrueRight(UnitEval(u, v), tl, r, v); }
  }

  lemma {:induction false} JoinTrueLeft(l: Rest, r: Level, v: Valuation)
    requires RestAre(l, true, v) && PrecEval(r, v)
    ensures TermsEval(true, JoinRest(l, And, r), v)
    decreases l
  {
    match l
    case End =>
    case More(_, u, tl) => JoinTrueLeft(tl, r, v);
  }

  // ----- trees

  /** Brackets around the whole do not matter, so one name for what the text of `e` means. */
  predicate TextEval(e: Expr, v: Valuation) {
    UnitEval(CelUnit(e), v)
  }

  lemma {:induction false} LevelTextEval(e: Expr, isChild: bool, v: Valuation)
    ensures PrecEval(CelLevel(e, isChild), v) == TextEval(e, v)
  {
    if e.Logic? {
      var lv := JoinLevels(CelLevel(e.left, !IsDouble(e)), e.op, CelLevel(e.right, !IsDouble(e)));
      assert UnitEval(UGroup(lv), v) == PrecEval(lv, v);
    }
  }

  lemma {:induction false} TextLocal(e: Expr, v: Valuation, w: Valuation)
    requires forall a :: a in AtomsOf(e) ==> v(a) == w(a)
    ensures forall isChild, b :: AllAre(CelLevel(e, isChild), b, v) <==> AllAre(CelLevel(e, isChild), b, w)
    ensures forall isChild :: PrecEval(CelLevel(e, isChild), v) == PrecEval(CelLevel(e, isChild), w)
    ensures TextEval(e, v) == TextEval(e, w)
  {
    CelAtoms(e);
    UnitLocal(CelUnit(e), v, w, AtomsOf(e));
    forall isChild
      ensures PrecEval(CelLevel(e, isChild), v) == PrecEval(CelLevel(e, isChild), w)
      ensures forall b :: AllAre(CelLevel(e, isChild), b, v) <==> AllAre(CelLevel(e, isChild), b, w)
    {
      var lv := CelLevel(e, isChild);
      UnitLocal(lv.first, v, w, AtomsOf(e));
      RestLocal(lv.rest, v, w, AtomsOf(e));
    }
  }

  lemma {:induction false} CelAtoms(e: Expr)
    ensures UnitAtoms(CelUnit(e)) == AtomsOf(e)
    ensures forall isChild :: LevelAtoms(CelLevel(e, isChild)) == AtomsOf(e)
  {
    match e
    case Attr(_) =>
    case Not(x) => CelAtoms(x);
    case Prec(x) => CelAtoms(x);
    case Logic(op, l, r) =>
      CelAtoms(l);
      CelAtoms(r);
      JoinAtoms(CelLevel(l, !IsDouble(e)).rest, op, CelLevel(r, !IsDouble(e)));
  }

  /** All units of the tree's text can be given one truth value at once, and then so have the
      text and the tree. */
  lemma {:induction false} Uniform(e: Expr, b: bool) returns (v: Valuation)
    requires ReadOnce(e)
    ensures Eval(e, v) == b && TextEval(e, v) == b
    ensures forall isChild :: AllAre(CelLevel(e, isChild), b, v)
    decreases e
  {
    match e
    case Attr(_) => v := a => b;
    case Not(x) => v := Uniform(x, !b);
    case Prec(x) => v := Uniform(x, b);
    case Logic(op, l, r) =>
      var vl := Uniform(l, b);
      var vr := Uniform(r, b);
      v := TwoSides(l, r, vl, vr);
      var child := !IsDouble(e);
      var x, y := CelLevel(l, child), CelLevel(r, child);
      assert AllAre(x, b, v) && AllAre(y, b, v);
      JoinAre(x.rest, op, y, b, v);
      RestAreEval(b, JoinLevels(x, op, y).rest, v);
      assert UnitEval(UGroup(JoinLevels(x, op, y)), v) == b;
      forall isChild ensures AllAre(CelLevel(e, isChild), b, v) {}
  }

  /** One valuation on the left operand's comparisons and another on the right's. */
  lemma TwoSides(l: Expr, r: Expr, vl: Valuation, vr: Valuation) returns (v: Valuation)
    requires AtomsOf(l) !! AtomsOf(r)
    ensures forall a :: a in AtomsOf(r) ==> v(a) == vr(a)
    ensures Eval(l, v) == Eval(l, vl) && Eval(r, v) == Eval(r, vr)
    ensures TextEval(l, v) == TextEval(l, vl) && TextEval(r, v) == TextEval(r, vr)
    ensures forall isChild, b :: AllAre(CelLevel(l, isChild), b, v) <==> AllAre(CelLevel(l, isChild), b, vl)
    ensures forall isChild, b :: AllAre(CelLevel(r, isChild), b, v) <==> AllAre(CelLevel(r, isChild), b, vr)
  {
    v := Override(AtomsOf(l), vl, vr);
    EvalLocal(l, v, vl);
    EvalLocal(r, v, vr);
    TextLocal(l, v, vl);
    TextLocal(r, v, vr);
  }

  /** The bad shape somewhere in the bare logic at the top of `e`. */
  predicate TopBad(e: Expr) {
    e.Logic? && (BareAndOr(e) || TopBad(e.left) || TopBad(e.right))
  }

  lemma {:induction false} TopOneTerm(e: Expr, isChild: bool)
    requires !TopBad(e)
    ensures isChild || (e.Logic? ==> e.op == And) ==> OneTerm(CelLevel(e, isChild))
    decreases e
  {
    if e.Logic? {
      var child := !IsDouble(e);
      TopOneTerm(e.left, child);
      TopOneTerm(e.right, child);
      JoinNoOr(CelLevel(e.left, child).rest, e.op, CelLevel(e.right, child));
    }
  }

  /** With the bad shape among the bare logic, the text can be true while the tree is false. */
  lemma {:induction false} TopBadDiffers(e: Expr) returns (v: Valuation)
    requires ReadOnce(e) && TopBad(e)
    ensures !Eval(e, v) && TextEval(e, v)
    decreases e
  {
    var op, l, r := e.op, e.left, e.right;
    var child := !IsDouble(e);
    var x, y := CelLevel(l, child), CelLevel(r, child);
    if BareAndOr(e) {
      var vl := Uniform(l, false);
      var v1 := Uniform(r.left, false);
      var v2 := Uniform(r.right, true);
      var vr := TwoSides(r.left, r.right, v1, v2);
      v := TwoSides(l, r, vl, vr);
      TextLocal(r.right, v, vr);
      var c := !IsDouble(r);
      var a, z := CelLevel(r.left, c), CelLevel(r.right, c);
      LevelTextEval(r.right, c, v);
      JoinAssoc(x.rest, a, z);
      JoinEval(JoinLevels(x, And, a), Or, z, v);
    } else if TopBad(l) {
      var vl := TopBadDiffers(l);
      var vr := Uniform(r, op == And);
      v := TwoSides(l, r, vl, vr);
      LevelTextEval(l, child, v);
      LevelTextEval(r, child, v);
      if op == And {
        JoinTrueRight(UnitEval(x.first, v), x.rest, y, v);
      } else {
        JoinEval(x, Or, y, v);
      }
    } else {
      var vr := TopBadDiffers(r);
      var vl := Uniform(l, op == And);
      v := TwoSides(l, r, vl, vr);
      LevelTextEval(l, child, v);
      LevelTextEval(r, child, v);
      if op == And {
        JoinTrueLeft(x.rest, y, v);
      } else {
        JoinEval(x, Or, y, v);
      }
    }
  }

  /** With the bad shape anywhere, text and tree differ somewhere. */
  lemma {:induction false} BadDiffers(e: Expr) returns (v: Valuation)
    requires ReadOnce(e) && !NoBareAndOr(e)
    ensures Eval(e, v) != TextEval(e, v)
    decreases e
  {
    match e
    case Not(x) => v := BadDiffers(x);
    case Prec(x) => v := BadDiffers(x);
    case Logic(op, l, r) =>
      if TopBad(e) {
        v := TopBadDiffers(e);
      } else {
        var inLeft := !NoBareAndOr(l);
        var vl, vr;
        if inLeft {
          vl := BadDiffers(l);
          vr := Uniform(r, op == And);
        } else {
          vl := Uniform(l, op == And);
          vr := BadDiffers(r);
        }
        v := TwoSides(l, r, vl, vr);
        var child := !IsDouble(e);
        LevelTextEval(l, child, v);
        LevelTextEval(r, child, v);
        TopOneTerm(l, child);
        TopOneTerm(r, child);
        JoinEval(CelLevel(l, child), op, CelLevel(r, child), v);
      }
  }

  /** Main result, for trees in which no comparison occurs twice, and comparisons taken as units: the
      emitted text means what the tree means under every valuation exactly when no AND node of the tree
      has a bare AND on its left and a bare OR on its right. */
  lemma EmitMeaningExact(e: Expr)
    requires ReadOnce(e)
    ensures (forall v :: TextMeaning(MapFilter(e), v) == Some(Eval(e, v))) <==> NoBareAndOr(e)
  {
    if NoBareAndOr(e) {
      forall v ensures TextMeaning(MapFilter(e), v) == Some(Eval(e, v)) {
        EmitMeaning(e, v);
      }
    } else {
      var v := BadDiffers(e);
      EmitSpells(e, false);
      LevelMeaning(CelLevel(e, false), v);
      LevelTextEval(e, false, v);
    }
  }
}
