/** Text with an `is` comparison, which Cedar conditions are mapped to: ParseFilter refuses it. */
module ParserIs {
  import opened Idql
  import opened Surface
  import opened Parser
  import opened ParserFold

  predicate HasIsUnit(u: Unit) {
    match u
    case UAtom(a) => a.op == IS
    case UNot(x) => HasIsUnit(x)
    case UGroup(b) => HasIs(b)
  }

  predicate HasIs(lv: Level) {
    HasIsUnit(lv.first) || HasIsRest(lv.rest)
  }

  predicate HasIsRest(r: Rest) {
    match r
    case End => false
    case More(_, u, tl) => HasIsUnit(u) || HasIsRest(tl)
  }

  // ----- well-spelled text, `is` allowed

  predicate SpeltUnit(u: Unit, last: bool) {
    match u
    case UAtom(a) => SpeltAtom(a) && (last || !IsLogicWord(a.value))
    case UNot(x) => SpeltUnit(x, last)
    case UGroup(b) => Spelt(b, true)
  }

  predicate Spelt(lv: Level, last: bool) {
    SpeltUnit(lv.first, last && lv.rest == End) && SpeltRest(lv.rest, last)
  }

  predicate SpeltRest(r: Rest, last: bool) {
    match r
    case End => true
    case More(_, u, tl) => SpeltUnit(u, last && tl == End) && SpeltRest(tl, last)
  }

  lemma {:induction false} SpeltWfUnit(u: Unit, last: bool)
    requires SpeltUnit(u, last) && !HasIsUnit(u)
    ensures WfUnit(u, last)
    decreases u
  {
    match u
    case UAtom(_) =>
    case UNot(x) => SpeltWfUnit(x, last);
    case UGroup(b) => SpeltWf(b, true);
  }

  lemma {:induction false} SpeltWfRest(r: Rest, last: bool)
    requires SpeltRest(r, last) && !HasIsRest(r)
    ensures WfRest(r, last)
    decreases r
  {
    match r
    case End =>
    case More(_, u, tl) =>
      SpeltWfUnit(u, last && tl == End);
      SpeltWfRest(tl, last);
  }

  lemma {:induction false} SpeltWf(lv: Level, last: bool)
    requires Spelt(lv, last) && !HasIs(lv)
    ensures WfLevel(lv, last)
    decreases lv
  {
    SpeltWfUnit(lv.first, last && lv.rest == End);
    SpeltWfRest(lv.rest, last);
  }

  // ----- running into it

  const REFUSAL: Parse := Err(Unsupported("is"))

  lemma RunIsAtom(a: Atom, k: seq<Tok>, st: State)
    requires Awaits(st) && SpeltAtom(a) && a.op == IS && (k == [] || (k[0] == Sp && !IsLogicWord(a.value)))
    ensures Run(SpellAtom(a) + k, st) == REFUSAL
  {
    var k1 := [Word(a.value)] + k;
    var k2 := [Word(OpWord(IS)), Sp] + k1;
    assert SpellAtom(a) + k == [Word(a.path), Sp] + k2;
    RunPath(a, k2, st);
    OpWordReads(IS);
    assert SpellsOp("is", IS);
    RunOp(a, "is", k1, st);
    RunIsValue(a, k, st.(isAttr := true, isExpr := true, attr := a.path, cond := OpWord(IS)));
  }

  lemma RunIsValue(a: Atom, k: seq<Tok>, s: State)
    requires SpeltAtom(a) && a.op == IS && (k == [] || (k[0] == Sp && !IsLogicWord(a.value)))
    requires s.isAttr && s.isExpr && !s.isValue && s.attr == a.path && s.cond == OpWord(IS) && s.word == ""
    ensures Run([Word(a.value)] + k, s) == REFUSAL
  {
    OpWordReads(IS);
    RunStep(Word(a.value), k, s);
    if k != [] {
      assert k == [Sp] + k[1..];
      RunStep(Sp, k[1..], Flag(s).(word := a.value));
    }
  }

  lemma RunBadGroup(body: seq<Tok>, e: ParseError, k: seq<Tok>, st: State)
    requires Awaits(st)
    requires MatchClose(body + ([Close] + k), 1) == |body| && ParseTokens(body) == Err(e)
    ensures Run([Open] + (body + [Close]) + k, st) == Err(e)
  {
    var ts := [Open] + (body + [Close]) + k;
    var rest := body + ([Close] + k);
    assert ts[1..] == rest;
    RunGroupAt(ts, st, |body|);
    assert rest[..|body|] == body;
  }

  lemma {:induction false} RefuseUnit(u: Unit, gap: bool, k: seq<Tok>, st: State)
    requires Awaits(st) && SpeltUnit(u, k == []) && HasIsUnit(u) && (k == [] || k[0] == Sp)
    ensures Run(SpellUnit(u, gap) + k, st) == REFUSAL
    decreases u
  {
    match u
    case UAtom(a) => RunIsAtom(a, k, st);
    case UNot(x) =>
      assert SpellUnit(u, gap) + k == SpellTok(TNot, gap) + (SpellUnit(x, gap) + k);
      RunNot(gap, SpellUnit(x, gap) + k, st);
      RefuseUnit(x, gap, k, st.(isNot := true));
    case UGroup(b) =>
      assert SpellLevel(b, gap) + [] == SpellLevel(b, gap);
      RefuseLevel(b, gap, [], START);
      ScanLevel(b, gap, [Close] + k, 1);
      RunBadGroup(SpellLevel(b, gap), Unsupported("is"), k, st);
  }

  lemma {:induction false} RefuseRest(acc: Expr, r: Rest, gap: bool, k: seq<Tok>, st: State)
    requires Holds(st, acc) && SpeltRest(r, k == []) && HasIsRest(r) && (k == [] || k[0] == Sp)
    ensures Continue(SpellRest(r, gap) + k, st) == REFUSAL
    decreases r
  {
    var op, u, tl := r.op, r.next, r.tail;
    var k2 := SpellRest(tl, gap) + k;
    assert SpellRest(r, gap) + k == SpellTok(OpTok(op), gap) + (SpellUnit(u, gap) + k2);
    RunLogic(op, gap, SpellUnit(u, gap) + k2, st);
    RestEnds(tl, gap, k);
    if HasIsUnit(u) {
      RefuseUnit(u, gap, k2, LogicSeen(st, op));
    } else {
      SpeltWfUnit(u, k2 == []);
      var s2 := RunUnit(u, gap, k2, LogicSeen(st, op));
      RefuseRest(Logic(op, acc, FoldUnit(u, st.isNot)), tl, gap, k, s2);
    }
  }

  /** A level with an `is` comparison is refused, whatever follows it. */
  lemma {:induction false} RefuseLevel(lv: Level, gap: bool, k: seq<Tok>, st: State)
    requires Awaits(st) && Spelt(lv, k == []) && HasIs(lv) && (k == [] || k[0] == Sp)
    ensures Run(SpellLevel(lv, gap) + k, st) == REFUSAL
    decreases lv
  {
    var k1 := SpellRest(lv.rest, gap) + k;
    assert SpellLevel(lv, gap) + k == SpellUnit(lv.first, gap) + k1;
    RestEnds(lv.rest, gap, k);
    if HasIsUnit(lv.first) {
      RefuseUnit(lv.first, gap, k1, st);
    } else {
      SpeltWfUnit(lv.first, k1 == []);
      var s1 := RunUnit(lv.first, gap, k1, st);
      RefuseRest(WithClause(st, FoldUnit(lv.first, st.isNot)), lv.rest, gap, k, s1);
    }
  }

  /** Main result: ParseFilter accepts well-spelled text exactly when no comparison in it is `is`. */
  lemma AcceptsExactly(lv: Level, gap: bool)
    requires Spelt(lv, true)
    ensures ParseTokens(Spell(LevelText(lv), gap)) == if HasIs(lv) then REFUSAL else Ok(FoldLevel(lv))
  {
    if HasIs(lv) {
      SpellLevelText(lv, gap);
      assert SpellLevel(lv, gap) + [] == SpellLevel(lv, gap);
      RefuseLevel(lv, gap, [], START);
    } else {
      SpeltWf(lv, true);
      ParseIsLeftFold(lv, gap);
    }
  }
}
