/** Exactly when does the parser's left fold mean what the RFC says the text means? */
module ParserMeaning {
  import opened Idql
  import opened Surface
  import opened Once
  import opened Parser
  import opened ParserFold

  // ----- one level with its units as bare truth values

  /** The later units of a level: operator, truth in the parser's tree, truth in the text. */
  datatype Chain = Nil | Link(op: LogicOp, inTree: bool, inText: bool, tail: Chain)

  predicate FoldChain(acc: bool, ch: Chain)
    decreases ch
  {
    match ch
    case Nil => acc
    case Link(op, c, _, tl) => FoldChain(Apply(op, acc, c), tl)
  }

  predicate PrecChain(term: bool, ch: Chain)
    decreases ch
  {
    match ch
    case Nil => term
    case Link(And, _, t, tl) => PrecChain(term && t, tl)
    case Link(Or, _, t, tl) => term || PrecChain(t, tl)
  }

  lemma {:induction false} PrecMonotone(t: bool, t': bool, ch: Chain)
    requires (t ==> t') && PrecChain(t, ch)
    ensures PrecChain(t', ch)
  {
    match ch
    case Nil =>
    case Link(And, _, x, tl) => PrecMonotone(t && x, t' && x, tl);
    case Link(Or, _, _, _) =>
  }

  function Readings(r: Rest, sticky: bool, v: Valuation): Chain {
    match r
    case End => Nil
    case More(op, u, tl) =>
      Link(op, Eval(FoldUnit(u, sticky), v), UnitEval(u, v), Readings(tl, sticky || u.UNot?, v))
  }

  lemma {:induction false} FoldReadings(acc: Expr, r: Rest, sticky: bool, v: Valuation)
    ensures Eval(FoldRest(acc, r, sticky), v) == FoldChain(Eval(acc, v), Readings(r, sticky, v))
    decreases r
  {
    match r
    case End =>
    case More(op, u, tl) => FoldReadings(Logic(op, acc, FoldUnit(u, sticky)), tl, sticky || u.UNot?, v);
  }

  lemma {:induction false} PrecReadings(term: bool, r: Rest, sticky: bool, v: Valuation)
    ensures TermsEval(term, r, v) == PrecChain(term, Readings(r, sticky, v))
    decreases r
  {
    match r
    case End =>
    case More(And, u, tl) => PrecReadings(term && UnitEval(u, v), tl, sticky || u.UNot?, v);
    case More(Or, u, tl) => PrecReadings(UnitEval(u, v), tl, sticky || u.UNot?, v);
  }

  /** Both readings of a level, as readings of its chain. */
  lemma LevelReadings(lv: Level, v: Valuation)
    ensures var ch := Readings(lv.rest, lv.first.UNot?, v);
      && Eval(FoldLevel(lv), v) == FoldChain(Eval(FoldUnit(lv.first, false), v), ch)
      && PrecEval(lv, v) == PrecChain(UnitEval(lv.first, v), ch)
  {
    FoldReadings(FoldUnit(lv.first, false), lv.rest, lv.first.UNot?, v);
    PrecReadings(UnitEval(lv.first, v), lv.rest, lv.first.UNot?, v);
  }

  // ----- the condition

  /** How the parser's tree relates to the text: the same meaning, the negated one, or neither. */
  datatype Status = Same | Opposite | Neither

  function Flip(s: Status): Status {
    match s
    case Same => Opposite
    case Opposite => Same
    case Neither => Neither
  }

  /** The parser negates a bracket group once any `not` came at its level, and nothing else. */
  function UnitStatus(u: Unit, sticky: bool): Status
    decreases u
  {
    match u
    case UAtom(_) => Same
    case UNot(x) => Flip(UnitStatus(x, true))
    case UGroup(b) => if sticky then Flip(LevelStatus(b)) else LevelStatus(b)
  }

  /** Several units keep their meaning when each of them does and no `and` follows an `or`. */
  function LevelStatus(lv: Level): Status
    decreases lv
  {
    if lv.rest == End then UnitStatus(lv.first, false)
    else if UnitStatus(lv.first, false) == Same && RestSame(lv.rest, lv.first.UNot?) && Ordered(lv.rest, false)
    then Same else Neither
  }

  predicate RestSame(r: Rest, sticky: bool)
    decreases r
  {
    match r
    case End => true
    case More(_, u, tl) => UnitStatus(u, sticky) == Same && RestSame(tl, sticky || u.UNot?)
  }

  /** No `and` follows an `or`. */
  predicate Ordered(r: Rest, seenOr: bool) {
    match r
    case End => true
    case More(op, _, tl) => !(seenOr && op == And) && Ordered(tl, seenOr || op == Or)
  }

  // ----- the condition suffices

  /** A chain whose units are read alike. */
  predicate Even(ch: Chain) {
    ch == Nil || (ch.inTree == ch.inText && Even(ch.tail))
  }

  lemma {:induction false} OrsAgree(r: Rest, sticky: bool, v: Valuation, acc: bool)
    requires Even(Readings(r, sticky, v)) && Ordered(r, true)
    ensures FoldChain(acc, Readings(r, sticky, v)) == PrecChain(acc, Readings(r, sticky, v))
    ensures FoldChain(true, Readings(r, sticky, v))
    decreases r
  {
    match r
    case End =>
    case More(_, u, tl) =>
      var s, c := sticky || u.UNot?, UnitEval(u, v);
      OrsAgree(tl, s, v, acc || c);
      OrsAgree(tl, s, v, c);
  }

  lemma {:induction false} OrderedAgrees(r: Rest, sticky: bool, v: Valuation, acc: bool)
    requires Even(Readings(r, sticky, v)) && Ordered(r, false)
    ensures FoldChain(acc, Readings(r, sticky, v)) == PrecChain(acc, Readings(r, sticky, v))
    decreases r
  {
    match r
    case End =>
    case More(And, u, tl) => OrderedAgrees(tl, sticky || u.UNot?, v, acc && UnitEval(u, v));
    case More(Or, _, _) => OrsAgree(r, sticky, v, acc);
  }

  lemma {:induction false} UnitSound(u: Unit, sticky: bool, v: Valuation)
    ensures UnitStatus(u, sticky) == Same ==> Eval(FoldUnit(u, sticky), v) == UnitEval(u, v)
    ensures UnitStatus(u, sticky) == Opposite ==> Eval(FoldUnit(u, sticky), v) != UnitEval(u, v)
    decreases u
  {
    match u
    case UAtom(_) =>
    case UNot(x) => UnitSound(x, true, v);
    case UGroup(b) => LevelSound(b, v);
  }

  lemma {:induction false} RestSound(r: Rest, sticky: bool, v: Valuation)
    requires RestSame(r, sticky)
    ensures Even(Readings(r, sticky, v))
    decreases r
  {
    match r
    case End =>
    case More(_, u, tl) =>
      UnitSound(u, sticky, v);
      RestSound(tl, sticky || u.UNot?, v);
  }

  /** The status of a level says how its two readings relate, under every valuation. */
  lemma {:induction false} LevelSound(lv: Level, v: Valuation)
    ensures LevelStatus(lv) == Same ==> Eval(FoldLevel(lv), v) == PrecEval(lv, v)
    ensures LevelStatus(lv) == Opposite ==> Eval(FoldLevel(lv), v) != PrecEval(lv, v)
    decreases lv
  {
    UnitSound(lv.first, false, v);
    LevelReadings(lv, v);
    if lv.rest != End && LevelStatus(lv) == Same {
      RestSound(lv.rest, lv.first.UNot?, v);
      OrderedAgrees(lv.rest, lv.first.UNot?, v, UnitEval(lv.first, v));
    }
  }

  /** Main result: on text of status Same the parser's tree has the RFC meaning of the text. */
  lemma ParseMeaning(lv: Level, gap: bool, v: Valuation)
    requires WfLevel(lv, true) && LevelStatus(lv) == Same
    ensures var r := ParseTokens(Spell(LevelText(lv), gap));
      r.Ok? && TextMeaning(LevelText(lv), v) == Some(Eval(r.value, v))
  {
    ParseIsLeftFold(lv, gap);
    LevelMeaning(lv, v);
    LevelSound(lv, v);
  }

  // ----- tidy text

  /** At every level: no `and` follows an `or`, each `not` is directly followed by a bracket
      group, and no plain bracket group follows a `not`. */
  predicate Tidy(lv: Level)
    decreases lv
  {
    TidyUnit(lv.first, false) && TidyRest(lv.rest, lv.first.UNot?) && Ordered(lv.rest, false)
  }

  predicate TidyUnit(u: Unit, afterNot: bool)
    decreases u
  {
    match u
    case UAtom(_) => true
    case UNot(x) => x.UGroup? && Tidy(x.body)
    case UGroup(b) => !afterNot && Tidy(b)
  }

  predicate TidyRest(r: Rest, afterNot: bool)
    decreases r
  {
    match r
    case End => true
    case More(_, u, tl) => TidyUnit(u, afterNot) && TidyRest(tl, afterNot || u.UNot?)
  }

  /** Tidy text has status Same. */
  lemma {:induction false} TidySame(lv: Level)
    requires Tidy(lv)
    ensures LevelStatus(lv) == Same
    decreases lv
  {
    TidyUnitSame(lv.first, false);
    TidyRestSame(lv.rest, lv.first.UNot?);
  }

  lemma {:induction false} TidyUnitSame(u: Unit, sticky: bool)
    requires TidyUnit(u, sticky)
    ensures UnitStatus(u, sticky) == Same
    decreases u
  {
    match u
    case UAtom(_) =>
    case UNot(x) => TidySame(x.body);
    case UGroup(b) => TidySame(b);
  }

  lemma {:induction false} TidyRestSame(r: Rest, sticky: bool)
    requires TidyRest(r, sticky)
    ensures RestSame(r, sticky)
    decreases r
  {
    match r
    case End =>
    case More(_, u, tl) =>
      TidyUnitSame(u, sticky);
      TidyRestSame(tl, sticky || u.UNot?);
  }

  // ----- and it is needed

  lemma {:induction false} FoldUnitAtoms(u: Unit, sticky: bool)
    ensures AtomsOf(FoldUnit(u, sticky)) == UnitAtoms(u)
    ensures UnitOnce(u) ==> ReadOnce(FoldUnit(u, sticky))
    decreases u
  {
    match u
    case UAtom(_) =>
    case UNot(x) => FoldUnitAtoms(x, true);
    case UGroup(b) =>
      FoldUnitAtoms(b.first, false);
      FoldRestAtoms(FoldUnit(b.first, false), b.rest, b.first.UNot?);
      assert UnitOnce(u) ==> LevelOnce(b) && ReadOnce(FoldLevel(b));
  }

  lemma {:induction false} FoldRestAtoms(acc: Expr, r: Rest, sticky: bool)
    ensures AtomsOf(FoldRest(acc, r, sticky)) == AtomsOf(acc) + RestAtoms(r)
    ensures ReadOnce(acc) && RestOnce(r) && AtomsOf(acc) !! RestAtoms(r) ==> ReadOnce(FoldRest(acc, r, sticky))
    decreases r
  {
    match r
    case End =>
    case More(op, u, tl) =>
      FoldUnitAtoms(u, sticky);
      FoldRestAtoms(Logic(op, acc, FoldUnit(u, sticky)), tl, sticky || u.UNot?);
  }

  lemma {:induction false} ReadingsLocal(r: Rest, sticky: bool, v: Valuation, w: Valuation, s: set<Atom>)
    requires Agree(s, v, w) && RestAtoms(r) <= s
    ensures Readings(r, sticky, v) == Readings(r, sticky, w)
    decreases r
  {
    match r
    case End =>
    case More(_, u, tl) =>
      FoldUnitAtoms(u, sticky);
      EvalLocal(FoldUnit(u, sticky), v, w);
      UnitLocal(u, v, w, s);
      ReadingsLocal(tl, sticky || u.UNot?, v, w, s);
  }

  /** One valuation for a unit's comparisons and another for those of the units after it. */
  lemma Combine2(u: Unit, sticky: bool, r: Rest, sticky': bool, vu: Valuation, vr: Valuation) returns (v: Valuation)
    requires UnitAtoms(u) !! RestAtoms(r)
    ensures Eval(FoldUnit(u, sticky), v) == Eval(FoldUnit(u, sticky), vu) && UnitEval(u, v) == UnitEval(u, vu)
    ensures Readings(r, sticky', v) == Readings(r, sticky', vr)
  {
    v := Override(UnitAtoms(u), vu, vr);
    FoldUnitAtoms(u, sticky);
    EvalLocal(FoldUnit(u, sticky), v, vu);
    UnitLocal(u, v, vu, UnitAtoms(u));
    ReadingsLocal(r, sticky', v, vr, RestAtoms(r));
  }

  lemma RealizeFold(u: Unit, sticky: bool, b: bool) returns (v: Valuation)
    requires UnitOnce(u)
    ensures Eval(FoldUnit(u, sticky), v) == b
  {
    FoldUnitAtoms(u, sticky);
    v := Realize(FoldUnit(u, sticky), b);
  }

  /** Later units can be made to leave the fold as it is. */
  lemma {:induction false} NeutralRest(r: Rest, sticky: bool) returns (v: Valuation)
    requires RestOnce(r)
    ensures forall acc :: FoldChain(acc, Readings(r, sticky, v)) == acc
    decreases r
  {
    match r
    case End => v := a => false;
    case More(op, u, tl) =>
      var vu := RealizeFold(u, sticky, op == And);
      var vr := NeutralRest(tl, sticky || u.UNot?);
      v := Combine2(u, sticky, tl, sticky || u.UNot?, vu, vr);
  }

  /** Whatever the text means to the left, tree and text cannot both follow from `x` to `!x`. */
  predicate Parts(p: Chain, q: Chain, x: bool) {
    forall term :: !(PrecChain(term, p) == x && PrecChain(term, q) != x)
  }

  /** A unit that is not Same moves the fold one way and cannot move the text with it. */
  lemma {:induction false} RestDiffers(r: Rest, sticky: bool) returns (s: bool, p: Valuation, q: Valuation)
    requires RestOnce(r) && !RestSame(r, sticky)
    ensures FoldChain(s, Readings(r, sticky, p)) != FoldChain(s, Readings(r, sticky, q))
    ensures Parts(Readings(r, sticky, p), Readings(r, sticky, q), FoldChain(s, Readings(r, sticky, p)))
    decreases r
  {
    var op, u, tl := r.op, r.next, r.tail;
    var s' := sticky || u.UNot?;
    if UnitStatus(u, sticky) == Same {
      var p', q';
      s, p', q' := RestDiffers(tl, s');
      var vu := RealizeFold(u, sticky, s);
      p := Combine2(u, sticky, tl, s', vu, p');
      q := Combine2(u, sticky, tl, s', vu, q');
    } else {
      s := op == And;
      var vp := UnitDiffers(u, sticky);
      var vq := RealizeFold(u, sticky, !Eval(FoldUnit(u, sticky), vp));
      var w := NeutralRest(tl, s');
      p := Combine2(u, sticky, tl, s', vp, w);
      q := Combine2(u, sticky, tl, s', vq, w);
      MovesApart(op, Readings(r, sticky, p), Readings(r, sticky, q));
    }
  }

  /** Two chains that differ in their first unit only, read unalike there in the first chain. */
  lemma MovesApart(op: LogicOp, p: Chain, q: Chain)
    requires p.Link? && q.Link? && p.op == q.op == op && p.tail == q.tail
    requires p.inText != p.inTree && q.inTree != p.inTree
    ensures Parts(p, q, p.inTree)
  {
    forall term ensures !(PrecChain(term, p) == p.inTree && PrecChain(term, q) != p.inTree) {
      if op == And {
        Monotone(term && p.inText, term && q.inText, p.tail, p.inTree);
      } else {
        Monotone(p.inText, q.inText, p.tail, p.inTree);
      }
    }
  }

  /** When `t` is on the far side of `x`, a chain that still gives `x` from it gives `x` from `t'`. */
  lemma Monotone(t: bool, t': bool, ch: Chain, x: bool)
    requires if x then t ==> t' else t' ==> t
    ensures PrecChain(t, ch) == x ==> PrecChain(t', ch) == x
  {
    if x && PrecChain(t, ch) {
      PrecMonotone(t, t', ch);
    }
    if !x && PrecChain(t', ch) {
      PrecMonotone(t', t, ch);
    }
  }

  /** An `and` after an `or`: true up to there, false from there on. */
  lemma {:induction false} RestBreaks(r: Rest, sticky: bool, seenOr: bool) returns (v: Valuation)
    requires RestOnce(r) && RestSame(r, sticky) && !Ordered(r, seenOr)
    ensures !FoldChain(true, Readings(r, sticky, v))
    ensures !seenOr ==> PrecChain(true, Readings(r, sticky, v))
    decreases r
  {
    var op, u, tl := r.op, r.next, r.tail;
    var s' := sticky || u.UNot?;
    var last := seenOr && op == And;
    var vu := RealizeFold(u, sticky, !last);
    UnitSound(u, sticky, vu);
    var w;
    if last {
      w := FalseRest(tl, s');
    } else {
      w := RestBreaks(tl, s', seenOr || op == Or);
    }
    v := Combine2(u, sticky, tl, s', vu, w);
  }

  lemma {:induction false} FalseRest(r: Rest, sticky: bool) returns (v: Valuation)
    requires RestOnce(r)
    ensures !FoldChain(false, Readings(r, sticky, v))
    decreases r
  {
    match r
    case End => v := a => false;
    case More(_, u, tl) =>
      var vu := RealizeFold(u, sticky, false);
      var w := FalseRest(tl, sticky || u.UNot?);
      v := Combine2(u, sticky, tl, sticky || u.UNot?, vu, w);
  }

  function LastOp(r: Rest): LogicOp
    requires r != End
  {
    if r.tail == End then r.op else LastOp(r.tail)
  }

  /** With the last unit deciding the fold and the others the text, both come out alike. */
  lemma {:induction false} RestMeets(r: Rest, sticky: bool) returns (v: Valuation)
    requires r != End && RestOnce(r)
    ensures var o := LastOp(r) == Or;
      (forall acc :: FoldChain(acc, Readings(r, sticky, v)) == o) && PrecChain(o, Readings(r, sticky, v)) == o
    decreases r
  {
    var op, u, tl := r.op, r.next, r.tail;
    var s' := sticky || u.UNot?;
    if tl == End {
      v := RealizeFold(u, sticky, op == Or);
    } else {
      var vu := RealizeUnit(u, LastOp(r) == Or);
      var w := RestMeets(tl, s');
      v := Combine2(u, sticky, tl, s', vu, w);
    }
  }

  lemma {:induction false} UnitDiffers(u: Unit, sticky: bool) returns (v: Valuation)
    requires UnitOnce(u) && UnitStatus(u, sticky) != Same
    ensures Eval(FoldUnit(u, sticky), v) != UnitEval(u, v)
    decreases u
  {
    match u
    case UNot(x) => v := UnitMeets(x, true);
    case UGroup(b) => if sticky { v := LevelMeets(b); } else { v := LevelDiffers(b); }
  }

  lemma {:induction false} UnitMeets(u: Unit, sticky: bool) returns (v: Valuation)
    requires UnitOnce(u) && UnitStatus(u, sticky) != Opposite
    ensures Eval(FoldUnit(u, sticky), v) == UnitEval(u, v)
    decreases u
  {
    match u
    case UAtom(_) => v := a => false;
    case UNot(x) => v := UnitDiffers(x, true);
    case UGroup(b) => if sticky { v := LevelDiffers(b); } else { v := LevelMeets(b); }
  }

  /** A level that is not Same has a valuation under which tree and text differ. */
  lemma {:induction false} LevelDiffers(lv: Level) returns (v: Valuation)
    requires LevelOnce(lv) && LevelStatus(lv) != Same
    ensures Eval(FoldLevel(lv), v) != PrecEval(lv, v)
    decreases lv
  {
    var u, r, s := lv.first, lv.rest, lv.first.UNot?;
    if UnitStatus(u, false) != Same {
      v := FirstDiffers(lv);
    } else if r != End && !RestSame(r, s) {
      var acc, p', q' := RestDiffers(r, s);
      var vu := RealizeFold(u, false, acc);
      var p := Combine2(u, false, r, s, vu, p');
      var q := Combine2(u, false, r, s, vu, q');
      LevelReadings(lv, p);
      LevelReadings(lv, q);
      v := if Eval(FoldLevel(lv), p) != PrecEval(lv, p) then p else q;
    } else {
      var vu := RealizeFold(u, false, true);
      UnitSound(u, false, vu);
      var w := RestBreaks(r, s, false);
      v := Combine2(u, false, r, s, vu, w);
      LevelReadings(lv, v);
    }
  }

  lemma {:induction false} FirstDiffers(lv: Level) returns (v: Valuation)
    requires LevelOnce(lv) && UnitStatus(lv.first, false) != Same
    ensures Eval(FoldLevel(lv), v) != PrecEval(lv, v)
    decreases lv, 0
  {
    var u, r, s := lv.first, lv.rest, lv.first.UNot?;
    var vp := UnitDiffers(u, false);
    var x := Eval(FoldUnit(u, false), vp);
    var vq := RealizeFold(u, false, !x);
    var w := NeutralRest(r, s);
    var p := Combine2(u, false, r, s, vp, w);
    var q := Combine2(u, false, r, s, vq, w);
    LevelReadings(lv, p);
    LevelReadings(lv, q);
    Monotone(!x, UnitEval(u, vq), Readings(r, s, w), x);
    v := if Eval(FoldLevel(lv), p) != PrecEval(lv, p) then p else q;
  }

  /** A level that is not Opposite has a valuation under which tree and text agree. */
  lemma {:induction false} LevelMeets(lv: Level) returns (v: Valuation)
    requires LevelOnce(lv) && LevelStatus(lv) != Opposite
    ensures Eval(FoldLevel(lv), v) == PrecEval(lv, v)
    decreases lv
  {
    if lv.rest == End {
      v := UnitMeets(lv.first, false);
      LevelReadings(lv, v);
    } else {
      var s := lv.first.UNot?;
      var vu := RealizeUnit(lv.first, LastOp(lv.rest) == Or);
      var w := RestMeets(lv.rest, s);
      v := Combine2(lv.first, false, lv.rest, s, vu, w);
      LevelReadings(lv, v);
    }
  }

  predicate SameUnder(lv: Level, v: Valuation) {
    Eval(FoldLevel(lv), v) == PrecEval(lv, v)
  }

  /** The two readings of a level, exactly. */
  lemma FoldAgreementExact(lv: Level)
    requires LevelOnce(lv)
    ensures (forall v :: SameUnder(lv, v)) <==> LevelStatus(lv) == Same
    ensures (forall v :: !SameUnder(lv, v)) <==> LevelStatus(lv) == Opposite
  {
    forall v ensures LevelStatus(lv) == Same ==> SameUnder(lv, v)
             ensures LevelStatus(lv) == Opposite ==> !SameUnder(lv, v) {
      LevelSound(lv, v);
    }
    if LevelStatus(lv) != Same {
      var v := LevelDiffers(lv);
      assert !SameUnder(lv, v);
    }
    if LevelStatus(lv) != Opposite {
      var v := LevelMeets(lv);
      assert SameUnder(lv, v);
    }
  }

  /** ParseFilter accepts the text and its tree has the RFC meaning of the text. */
  predicate ReadsAlike(lv: Level, gap: bool, v: Valuation) {
    var r := ParseTokens(Spell(LevelText(lv), gap));
    r.Ok? && TextMeaning(LevelText(lv), v) == Some(Eval(r.value, v))
  }

  predicate ReadsOpposite(lv: Level, gap: bool, v: Valuation) {
    var r := ParseTokens(Spell(LevelText(lv), gap));
    r.Ok? && TextMeaning(LevelText(lv), v) == Some(!Eval(r.value, v))
  }

  /** Main result, for every well-spelled text in which no comparison occurs twice, however deeply
      bracketed: what ParseFilter returns has the RFC meaning under every valuation exactly when the
      status is Same, and the negated meaning under every valuation exactly when it is Opposite. */
  lemma AgreementExact(lv: Level, gap: bool)
    requires WfLevel(lv, true) && LevelOnce(lv)
    ensures (forall v :: ReadsAlike(lv, gap, v)) <==> LevelStatus(lv) == Same
    ensures (forall v :: ReadsOpposite(lv, gap, v)) <==> LevelStatus(lv) == Opposite
  {
    ParseIsLeftFold(lv, gap);
    FoldAgreementExact(lv);
    forall v ensures ReadsAlike(lv, gap, v) <==> SameUnder(lv, v)
             ensures ReadsOpposite(lv, gap, v) <==> !SameUnder(lv, v) {
      LevelMeaning(lv, v);
    }
    if LevelStatus(lv) != Same {
      var v :| !SameUnder(lv, v);
      assert !ReadsAlike(lv, gap, v);
    }
    if LevelStatus(lv) != Opposite {
      var v :| SameUnder(lv, v);
      assert !ReadsOpposite(lv, gap, v);
    }
  }

  /** `a or b and c`: read `(a or b) and c` by the parser, `a or (b and c)` by the RFC. */
  lemma AndAfterOrExample(a: Atom, b: Atom, c: Atom)
    requires a != c && b != c
    ensures var lv := Level(UAtom(a), More(Or, UAtom(b), More(And, UAtom(c), End)));
      exists v :: Eval(FoldLevel(lv), v) != PrecEval(lv, v)
  {
    var r1 := More(And, UAtom(c), End);
    var lv := Level(UAtom(a), More(Or, UAtom(b), r1));
    var v := x => x != c;
    assert FoldRest(Logic(Or, Attr(a), Attr(b)), r1, false) == Logic(And, Logic(Or, Attr(a), Attr(b)), Attr(c));
    assert FoldLevel(lv) == FoldRest(Attr(a), lv.rest, false)
      == FoldRest(Logic(Or, Attr(a), Attr(b)), r1, false);
    assert PrecEval(lv, v);
    assert !Eval(FoldLevel(lv), v);
  }
}
