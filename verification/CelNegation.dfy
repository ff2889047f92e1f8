/** CEL's own reading of `!`: directly before a relation it belongs to the left operand (the CEL
    language definition, section "Syntax"), so that `!a == "x"` is a comparison of its own and not the
    negation of `a == "x"`. Pairs of `!` cancel. */
module CelNegation {
  import opened Idql
  import opened Surface
  import opened Parser
  import opened ParserRetract
  import opened Cel
  import opened CelExact

  // ----- the reading

  /** `odd` says an odd number of `!` stands directly before the unit; `n` is the truth of the
      relations whose left operand is negated. */
  predicate OwnUnit(u: Unit, odd: bool, v: Valuation, n: Valuation)
    decreases u
  {
    match u
    case UAtom(a) => if odd && IsRelation(a.op) then n(a) else v(a) != odd
    case UNot(x) => OwnUnit(x, !odd, v, n)
    case UGroup(b) => OwnLevel(b, v, n) != odd
  }

  predicate OwnLevel(lv: Level, v: Valuation, n: Valuation)
    decreases lv
  {
    OwnTerms(OwnUnit(lv.first, false, v, n), lv.rest, v, n)
  }

  predicate OwnTerms(term: bool, r: Rest, v: Valuation, n: Valuation)
    decreases r
  {
    match r
    case End => term
    case More(And, u, tl) => OwnTerms(term && OwnUnit(u, false, v, n), tl, v, n)
    case More(Or, u, tl) => term || OwnTerms(OwnUnit(u, false, v, n), tl, v, n)
  }

  function OwnMeaning(ts: seq<LTok>, v: Valuation, n: Valuation): Option<bool> {
    match ReadText(ts)
    case None => None
    case Some(lv) => Some(OwnLevel(lv, v, n))
  }

  // ----- the reading as a valuation of the comparisons as units

  /** What `u` must make of a comparison that stands at such a place. */
  predicate FitsAtom(a: Atom, odd: bool, u: Valuation, v: Valuation, n: Valuation) {
    u(a) == if odd && IsRelation(a.op) then !n(a) else v(a)
  }

  predicate FitsUnit(x: Unit, odd: bool, u: Valuation, v: Valuation, n: Valuation) {
    match x
    case UAtom(a) => FitsAtom(a, odd, u, v, n)
    case UNot(y) => FitsUnit(y, !odd, u, v, n)
    case UGroup(b) => FitsLevel(b, u, v, n)
  }

  predicate FitsLevel(lv: Level, u: Valuation, v: Valuation, n: Valuation) {
    FitsUnit(lv.first, false, u, v, n) && FitsRest(lv.rest, u, v, n)
  }

  predicate FitsRest(r: Rest, u: Valuation, v: Valuation, n: Valuation) {
    match r
    case End => true
    case More(_, x, tl) => FitsUnit(x, false, u, v, n) && FitsRest(tl, u, v, n)
  }

  lemma {:induction false} FitUnit(x: Unit, odd: bool, u: Valuation, v: Valuation, n: Valuation)
    requires FitsUnit(x, odd, u, v, n)
    ensures OwnUnit(x, odd, v, n) == (UnitEval(x, u) != odd)
    decreases x
  {
    match x
    case UAtom(_) =>
    case UNot(y) => FitUnit(y, !odd, u, v, n);
    case UGroup(b) =>
      FitLevel(b, u, v, n);
      assert UnitEval(x, u) == PrecEval(b, u);
  }

  lemma {:induction false} FitLevel(lv: Level, u: Valuation, v: Valuation, n: Valuation)
    requires FitsLevel(lv, u, v, n)
    ensures OwnLevel(lv, v, n) == PrecEval(lv, u)
    decreases lv
  {
    FitUnit(lv.first, false, u, v, n);
    FitRest(UnitEval(lv.first, u), lv.rest, u, v, n);
  }

  lemma {:induction false} FitRest(term: bool, r: Rest, u: Valuation, v: Valuation, n: Valuation)
    requires FitsRest(r, u, v, n)
    ensures OwnTerms(term, r, v, n) == TermsEval(term, r, u)
    decreases r
  {
    match r
    case End =>
    case More(op, x, tl) =>
      FitUnit(x, false, u, v, n);
      FitRest(if op == And then term && UnitEval(x, u) else UnitEval(x, u), tl, u, v, n);
  }

  lemma {:induction false} FitJoin(l: Rest, op: LogicOp, r: Level, u: Valuation, v: Valuation, n: Valuation)
    requires FitsRest(l, u, v, n) && FitsLevel(r, u, v, n)
    ensures FitsRest(JoinRest(l, op, r), u, v, n)
    decreases l
  {
    match l
    case End =>
    case More(_, _, tl) => FitJoin(tl, op, r, u, v, n);
  }

  // ----- the tree

  /** The relations directly under an odd run of `not`; brackets around one of them are not written. */
  function NegatedRelations(e: Expr, odd: bool): set<Atom> {
    match e
    case Attr(a) => if odd && IsRelation(a.op) then {a} else {}
    case Not(x) => NegatedRelations(x, !odd)
    case Prec(x) => NegatedRelations(x, odd)
    case Logic(_, l, r) => NegatedRelations(l, false) + NegatedRelations(r, false)
  }

  predicate FitsTree(e: Expr, odd: bool, u: Valuation, v: Valuation, n: Valuation) {
    match e
    case Attr(a) => FitsAtom(a, odd, u, v, n)
    case Not(x) => FitsTree(x, !odd, u, v, n)
    case Prec(x) => FitsTree(x, odd, u, v, n)
    case Logic(_, l, r) => FitsTree(l, false, u, v, n) && FitsTree(r, false, u, v, n)
  }

  lemma {:induction false} FitTree(e: Expr, odd: bool, u: Valuation, v: Valuation, n: Valuation)
    requires FitsTree(e, odd, u, v, n)
    ensures FitsUnit(CelUnit(e), odd, u, v, n)
    ensures !odd ==> forall isChild :: FitsLevel(CelLevel(e, isChild), u, v, n)
  {
    match e
    case Attr(_) =>
    case Not(x) => FitTree(x, !odd, u, v, n);
    case Prec(x) => FitTree(x, odd, u, v, n);
    case Logic(op, l, r) =>
      FitTree(l, false, u, v, n);
      FitTree(r, false, u, v, n);
      var child := !IsDouble(e);
      FitJoin(CelLevel(l, child).rest, op, CelLevel(r, child), u, v, n);
  }

  lemma FitMeaning(e: Expr, u: Valuation, v: Valuation, n: Valuation)
    requires FitsTree(e, false, u, v, n)
    ensures OwnMeaning(MapFilter(e), v, n) == Some(TextEval(e, u))
  {
    EmitSpells(e, false);
    ReadTextInverse(CelLevel(e, false));
    FitTree(e, false, u, v, n);
    FitLevel(CelLevel(e, false), u, v, n);
    LevelTextEval(e, false, u);
  }

  /** Where no relation is negated so, the reading is the one with comparisons as units. */
  lemma {:induction false} NoneFits(e: Expr, odd: bool, v: Valuation, n: Valuation)
    requires NegatedRelations(e, odd) == {}
    ensures FitsTree(e, odd, v, v, n)
  {
    match e
    case Attr(a) => assert odd && IsRelation(a.op) ==> a in NegatedRelations(e, odd);
    case Not(x) => NoneFits(x, !odd, v, n);
    case Prec(x) => NoneFits(x, odd, v, n);
    case Logic(_, l, r) =>
      assert NegatedRelations(l, false) <= NegatedRelations(e, odd);
      assert NegatedRelations(r, false) <= NegatedRelations(e, odd);
      NoneFits(l, false, v, n);
      NoneFits(r, false, v, n);
  }

  /** So it is, too, when each such relation happens to be the negation. */
  lemma {:induction false} NegationFits(e: Expr, odd: bool, v: Valuation, n: Valuation)
    requires forall a :: n(a) == !v(a)
    ensures FitsTree(e, odd, v, v, n)
  {
    match e
    case Attr(_) =>
    case Not(x) => NegationFits(x, !odd, v, n);
    case Prec(x) => NegationFits(x, odd, v, n);
    case Logic(_, l, r) => NegationFits(l, false, v, n); NegationFits(r, false, v, n);
  }

  function Mixed(s: set<Atom>, v: Valuation, n: Valuation): Valuation {
    a => if a in s then !n(a) else v(a)
  }

  lemma {:induction false} NegatedAreAtoms(e: Expr, odd: bool)
    ensures NegatedRelations(e, odd) <= AtomsOf(e)
  {
    match e
    case Attr(_) =>
    case Not(x) => NegatedAreAtoms(x, !odd);
    case Prec(x) => NegatedAreAtoms(x, odd);
    case Logic(_, l, r) => NegatedAreAtoms(l, false); NegatedAreAtoms(r, false);
  }

  /** In a tree without a repeated comparison every comparison is read in one way. */
  lemma {:induction false} MixedFits(e: Expr, odd: bool, s: set<Atom>, v: Valuation, n: Valuation)
    requires ReadOnce(e) && forall a :: a in AtomsOf(e) ==> (a in s <==> a in NegatedRelations(e, odd))
    ensures FitsTree(e, odd, Mixed(s, v, n), v, n)
  {
    match e
    case Attr(a) => assert a in AtomsOf(e);
    case Not(x) => MixedFits(x, !odd, s, v, n);
    case Prec(x) => MixedFits(x, odd, s, v, n);
    case Logic(_, l, r) =>
      NegatedAreAtoms(l, false);
      NegatedAreAtoms(r, false);
      MixedFits(l, false, s, v, n);
      MixedFits(r, false, s, v, n);
  }

  // ----- the exact statement

  /** The emitted text, read as CEL reads it, means what the tree means when the brackets suffice and
      no relation stands directly under an odd run of `not`. */
  lemma OwnMeaningSound(e: Expr, v: Valuation, n: Valuation)
    requires NoBareAndOr(e) && NegatedRelations(e, false) == {}
    ensures OwnMeaning(MapFilter(e), v, n) == Some(Eval(e, v))
  {
    NoneFits(e, false, v, n);
    FitMeaning(e, v, v, n);
    CelLevelEval(e, false, v);
  }

  /** A relation that is negated so makes a difference. */
  lemma NegationDiffers(e: Expr, a: Atom) returns (v: Valuation, n: Valuation)
    requires ReadOnce(e) && NoBareAndOr(e) && a in NegatedRelations(e, false)
    ensures OwnMeaning(MapFilter(e), v, n) != Some(Eval(e, v))
  {
    NegatedAreAtoms(e, false);
    v := Sensitive(e, a);
    n := x => if x == a then v(a) else !v(x);
    var s := NegatedRelations(e, false);
    var u := Mixed(s, v, n);
    MixedFits(e, false, s, v, n);
    FitMeaning(e, u, v, n);
    CelLevelEval(e, false, u);
    EvalLocal(e, u, Set(v, a, !v(a)));
    EvalLocal(e, v, Set(v, a, v(a)));
  }

  /** Main result, for trees in which no comparison occurs twice: as CEL reads it, the emitted text
      means what the tree means, whatever the truth of the comparisons and of their variants with a
      negated left operand, exactly when the brackets suffice and no relation stands directly under
      an odd run of `not`. */
  lemma OwnMeaningExact(e: Expr)
    requires ReadOnce(e)
    ensures (forall v, n :: OwnMeaning(MapFilter(e), v, n) == Some(Eval(e, v)))
       <==> NoBareAndOr(e) && NegatedRelations(e, false) == {}
  {
    if !NoBareAndOr(e) {
      var v := BadDiffers(e);
      var n: Valuation := a => !v(a);
      NegationFits(e, false, v, n);
      FitMeaning(e, v, v, n);
      assert OwnMeaning(MapFilter(e), v, n) != Some(Eval(e, v));
    } else if a :| a in NegatedRelations(e, false) {
      var v, n := NegationDiffers(e, a);
    } else {
      forall v: Valuation, n: Valuation ensures OwnMeaning(MapFilter(e), v, n) == Some(Eval(e, v)) {
        OwnMeaningSound(e, v, n);
      }
    }
  }

  /** For rules ParseFilter accepts the negated relations alone decide. */
  lemma ParsedOwnMeaning(ts: seq<Tok>)
    requires ParseTokens(ts).Ok? && ReadOnce(ParseTokens(ts).value)
    ensures var e := ParseTokens(ts).value;
      (forall v, n :: OwnMeaning(MapFilter(e), v, n) == Some(Eval(e, v))) <==> NegatedRelations(e, false) == {}
  {
    var e := ParseTokens(ts).value;
    RunShape(ts, START);
    ParsedHasNoBareAndOr(e, true);
    OwnMeaningExact(e);
  }
}
