/** What `ParseFilter` computes on well-spelled text: a left fold without precedence, with
    `not` sticking to every later bracket group of its level. */
module ParserFold {
  import opened Idql
  import opened Surface
  import opened Parser
  import opened Strings

  // ----- spelling logical text as words, blanks and brackets

  function SpellAtom(a: Atom): seq<Tok> {
    if a.op == PR then [Word(a.path), Sp, Word("pr")]
    else [Word(a.path), Sp, Word(OpWord(a.op)), Sp, Word(a.value)]
  }

  /** `gap` says whether a blank follows `not`: String writes one, SerializeExpression does not. */
  function SpellTok(t: LTok, gap: bool): seq<Tok> {
    match t
    case TAtom(a) => SpellAtom(a)
    case TAnd => [Sp, Word("and"), Sp]
    case TOr => [Sp, Word("or"), Sp]
    case TNot => if gap then [NotKw, Sp] else [NotKw]
    case TOpen => [Open]
    case TClose => [Close]
  }

  function Spell(ts: seq<LTok>, gap: bool): seq<Tok> {
    if ts == [] then [] else SpellTok(ts[0], gap) + Spell(ts[1..], gap)
  }

  lemma {:induction false} SpellCat(a: seq<LTok>, b: seq<LTok>, gap: bool)
    ensures Spell(a + b, gap) == Spell(a, gap) + Spell(b, gap)
  {
    if a == [] {
      assert a + b == b;
    } else {
      SpellCat(a[1..], b, gap);
      SpellCatStep(a[0], a[1..], b, gap);
      assert [a[0]] + a[1..] == a;
    }
  }

  lemma SpellCatStep(t: LTok, a: seq<LTok>, b: seq<LTok>, gap: bool)
    requires Spell(a + b, gap) == Spell(a, gap) + Spell(b, gap)
    ensures Spell([t] + a + b, gap) == Spell([t] + a, gap) + Spell(b, gap)
  {
    calc {
      Spell([t] + a + b, gap);
      { assert [t] + a + b == [t] + (a + b); }
      Spell([t] + (a + b), gap);
      { SpellCons(t, a + b, gap); }
      SpellTok(t, gap) + (Spell(a, gap) + Spell(b, gap));
      { Assoc(SpellTok(t, gap), Spell(a, gap), Spell(b, gap)); }
      SpellTok(t, gap) + Spell(a, gap) + Spell(b, gap);
      { SpellCons(t, a, gap); }
      Spell([t] + a, gap) + Spell(b, gap);
    }
  }

  lemma SpellCons(t: LTok, ts: seq<LTok>, gap: bool)
    ensures Spell([t] + ts, gap) == SpellTok(t, gap) + Spell(ts, gap)
  {
    assert ([t] + ts)[1..] == ts;
  }

  lemma Assoc(a: seq<Tok>, b: seq<Tok>, c: seq<Tok>)
    ensures a + (b + c) == (a + b) + c
  {
  }

  function SpellUnit(u: Unit, gap: bool): seq<Tok> {
    match u
    case UAtom(a) => SpellAtom(a)
    case UNot(x) => SpellTok(TNot, gap) + SpellUnit(x, gap)
    case UGroup(b) => [Open] + (SpellLevel(b, gap) + [Close])
  }

  function SpellLevel(lv: Level, gap: bool): seq<Tok> {
    SpellUnit(lv.first, gap) + SpellRest(lv.rest, gap)
  }

  function SpellRest(r: Rest, gap: bool): seq<Tok> {
    match r
    case End => []
    case More(op, u, tl) => SpellTok(OpTok(op), gap) + (SpellUnit(u, gap) + SpellRest(tl, gap))
  }

  lemma {:induction false} SpellLevelText(lv: Level, gap: bool)
    ensures Spell(LevelText(lv), gap) == SpellLevel(lv, gap)
    decreases lv
  {
    SpellCat(UnitText(lv.first), RestText(lv.rest), gap);
    SpellUnitText(lv.first, gap);
    SpellRestText(lv.rest, gap);
  }

  lemma SpellOne(t: LTok, gap: bool)
    ensures Spell([t], gap) == SpellTok(t, gap)
  {
    assert Spell([t][1..], gap) == [];
  }

  lemma {:induction false} SpellUnitText(u: Unit, gap: bool)
    ensures Spell(UnitText(u), gap) == SpellUnit(u, gap)
    decreases u
  {
    match u
    case UAtom(a) => SpellOne(TAtom(a), gap);
    case UNot(x) =>
      SpellOne(TNot, gap);
      SpellCat([TNot], UnitText(x), gap);
      SpellUnitText(x, gap);
    case UGroup(b) =>
      SpellOne(TOpen, gap);
      SpellOne(TClose, gap);
      assert UnitText(u) == [TOpen] + (LevelText(b) + [TClose]);
      SpellCat([TOpen], LevelText(b) + [TClose], gap);
      SpellCat(LevelText(b), [TClose], gap);
      SpellLevelText(b, gap);
  }

  lemma {:induction false} SpellRestText(r: Rest, gap: bool)
    ensures Spell(RestText(r), gap) == SpellRest(r, gap)
    decreases r
  {
    match r
    case End =>
    case More(op, u, tl) =>
      SpellOne(OpTok(op), gap);
      assert RestText(r) == [OpTok(op)] + (UnitText(u) + RestText(tl));
      SpellCat([OpTok(op)], UnitText(u) + RestText(tl), gap);
      SpellCat(UnitText(u), RestText(tl), gap);
      SpellUnitText(u, gap);
      SpellRestText(tl, gap);
  }

  // ----- words that read back as themselves

  /** `is` apart, which the parser does not accept. */
  predicate WfAtom(a: Atom) {
    a.op != IS && SpeltAtom(a)
  }

  predicate SpeltAtom(a: Atom) {
    && a.path != "" && !IsLogicWord(a.path)
    && if a.op == PR then a.value == "" else a.value != "" && !EndsWithClose(a.value)
  }

  predicate WfUnit(u: Unit, last: bool) {
    match u
    case UAtom(a) => WfAtom(a) && (last || !IsLogicWord(a.value))
    case UNot(x) => WfUnit(x, last)
    case UGroup(b) => WfLevel(b, true)
  }

  /** A value spelled `and` or `or` can only stand where the text or a bracket group ends;
      `last` says the level ends there. */
  predicate WfLevel(lv: Level, last: bool) {
    WfUnit(lv.first, last && lv.rest == End) && WfRest(lv.rest, last)
  }

  predicate WfRest(r: Rest, last: bool) {
    match r
    case End => true
    case More(_, u, tl) => WfUnit(u, last && tl == End) && WfRest(tl, last)
  }

  // ----- the left fold

  function FoldUnit(u: Unit, sticky: bool): Expr
    decreases u
  {
    match u
    case UAtom(a) => Attr(a)
    case UNot(x) => FoldUnit(x, true)
    case UGroup(b) => if sticky then Not(FoldLevel(b)) else Prec(FoldLevel(b))
  }

  function FoldLevel(lv: Level): Expr
    decreases lv
  {
    FoldRest(FoldUnit(lv.first, false), lv.rest, lv.first.UNot?)
  }

  /** `acc` is everything to the left; `sticky` says a `not` was seen at this level. */
  function FoldRest(acc: Expr, r: Rest, sticky: bool): Expr
    decreases r
  {
    match r
    case End => acc
    case More(op, u, tl) => FoldRest(Logic(op, acc, FoldUnit(u, sticky)), tl, sticky || u.UNot?)
  }

  /** Some `not` was seen by the end of the level. */
  predicate StickyAfter(r: Rest, sticky: bool) {
    match r
    case End => sticky
    case More(_, u, tl) => StickyAfter(tl, sticky || u.UNot?)
  }

  // ----- running the parser over spelled text

  predicate Ready(st: State) {
    !st.isExpr && !st.isValue && st.attr == "" && st.cond == "" && st.word == ""
  }

  /** Between units: nothing yet, or one clause and an operator waiting for the next. */
  predicate Awaits(st: State) {
    Ready(st) && (st.clauses == [] || (st.isLogic && |st.clauses| == 1))
  }

  /** After a unit: everything so far is one clause. */
  predicate Holds(st: State, e: Expr) {
    Ready(st) && st.clauses == [e]
  }

  function WithClause(st: State, e: Expr): Expr
    requires Awaits(st)
  {
    if st.clauses == [] then e else Logic(LogicOpOf(st.isAnd), st.clauses[0], e)
  }

  /** The rest of a run once the text before it is a finished clause: nothing, or a blank and more. */
  function Continue(k: seq<Tok>, st: State): Parse {
    if k == [] then Finish(st) else Run(k[1..], st)
  }

  function RunFrom(next: Result<State, ParseError>, k: seq<Tok>): Parse {
    match next
    case Err(e) => Err(e)
    case Ok(st) => Run(k, st)
  }

  lemma RunStep(t: Tok, k: seq<Tok>, st: State)
    requires t != Open && (t == NotKw ==> k != [])
    ensures Run([t] + k, st) == RunFrom(Step(st, t), k)
  {
    assert ([t] + k)[1..] == k;
  }

  lemma OpWordReads(op: CompareOp)
    ensures OpOf(ToLower(OpWord(op))) == if op == IS then None else Some(op)
    ensures OpWord(op) != "" && !IsLogicWord(OpWord(op))
    ensures ToLower(OpWord(op)) == "pr" <==> op == PR
  {
    assert ToLower(OpWord(op)) == OpWord(op);
  }

  /** Attribute and blank, from a state that awaits a unit. */
  lemma RunPath(a: Atom, k: seq<Tok>, st: State)
    requires Awaits(st) && SpeltAtom(a)
    ensures Run([Word(a.path), Sp] + k, st) == Run(k, st.(isAttr := true, attr := a.path))
  {
    assert [Word(a.path), Sp] + k == [Word(a.path)] + ([Sp] + k);
    RunStep(Word(a.path), [Sp] + k, st);
    RunStep(Sp, k, st.(isAttr := true, word := a.path));
  }

  /** `w` is the operator's word, in any letter case. */
  predicate SpellsOp(w: string, op: CompareOp) {
    ToLower(w) == OpWord(op)
  }

  lemma SpeltOp(w: string, op: CompareOp)
    requires SpellsOp(w, op)
    ensures w != "" && !IsLogicWord(w) && (ToLower(w) == "pr" <==> op == PR)
    ensures OpOf(ToLower(w)) == if op == IS then None else Some(op)
  {
    OpWordReads(op);
    assert |ToLower(w)| == |w|;
    assert ToLower(OpWord(op)) == OpWord(op);
  }

  /** Operator and blank, for an operator that takes a value. */
  lemma RunOp(a: Atom, w: string, k: seq<Tok>, st: State)
    requires Awaits(st) && SpeltAtom(a) && a.op != PR && SpellsOp(w, a.op)
    ensures Run([Word(w), Sp] + k, st.(isAttr := true, attr := a.path))
         == Run(k, st.(isAttr := true, isExpr := true, attr := a.path, cond := w))
  {
    var s := st.(isAttr := true, attr := a.path);
    SpeltOp(w, a.op);
    assert [Word(w), Sp] + k == [Word(w)] + ([Sp] + k);
    RunStep(Word(w), [Sp] + k, s);
    RunStep(Sp, k, s.(isExpr := true, word := w));
  }

  /** The last word of a comparison, ended by a blank or by the end of the text. */
  lemma RunLast(a: Atom, w: string, k: seq<Tok>, st: State, s: State)
    requires Awaits(st) && WfAtom(a) && (k == [] || (k[0] == Sp && !IsLogicWord(a.value))) && SpellsOp(w, a.op)
    requires s == if a.op == PR then st.(isAttr := true, attr := a.path)
                  else st.(isAttr := true, isExpr := true, attr := a.path, cond := w)
    ensures Run([Word(if a.op == PR then w else a.value)] + k, s)
         == Continue(k, Combine(PushAtom(st, Attr(a))))
  {
    SpeltOp(w, a.op);
    var last := if a.op == PR then w else a.value;
    RunStep(Word(last), k, s);
    if k != [] {
      assert k == [Sp] + k[1..];
      RunStep(Sp, k[1..], Flag(s).(word := last));
    }
  }

  /** A comparison with the operator's word in any letter case. */
  function SpellAtomAs(a: Atom, w: string): seq<Tok> {
    if a.op == PR then [Word(a.path), Sp, Word(w)] else [Word(a.path), Sp, Word(w), Sp, Word(a.value)]
  }

  lemma RunAtomAs(a: Atom, w: string, k: seq<Tok>, st: State)
    requires Awaits(st) && WfAtom(a) && (k == [] || (k[0] == Sp && !IsLogicWord(a.value))) && SpellsOp(w, a.op)
    ensures Run(SpellAtomAs(a, w) + k, st) == Continue(k, Combine(PushAtom(st, Attr(a))))
  {
    if a.op == PR {
      assert SpellAtomAs(a, w) + k == [Word(a.path), Sp] + ([Word(w)] + k);
      RunPath(a, [Word(w)] + k, st);
      RunLast(a, w, k, st, st.(isAttr := true, attr := a.path));
    } else {
      var k1 := [Word(a.value)] + k;
      var k2 := [Word(w), Sp] + k1;
      assert SpellAtomAs(a, w) + k == [Word(a.path), Sp] + k2;
      RunPath(a, k2, st);
      RunOp(a, w, k1, st);
      RunLast(a, w, k, st, st.(isAttr := true, isExpr := true, attr := a.path, cond := w));
    }
  }

  lemma RunAtom(a: Atom, k: seq<Tok>, st: State)
    requires Awaits(st) && WfAtom(a) && (k == [] || (k[0] == Sp && !IsLogicWord(a.value)))
    ensures Run(SpellAtom(a) + k, st) == Continue(k, Combine(PushAtom(st, Attr(a))))
  {
    OpWordReads(a.op);
    RunAtomAs(a, OpWord(a.op), k, st);
  }

  /** Spelled text is balanced, so the bracket scan runs over it. */
  lemma {:induction false} ScanUnit(u: Unit, gap: bool, k: seq<Tok>, d: nat)
    requires d > 0
    ensures MatchClose(SpellUnit(u, gap) + k, d) == |SpellUnit(u, gap)| + MatchClose(k, d)
    decreases u
  {
    match u
    case UAtom(a) => ScanPlain(SpellAtom(a), k, d);
    case UNot(x) =>
      assert SpellUnit(u, gap) + k == SpellTok(TNot, gap) + (SpellUnit(x, gap) + k);
      ScanPlain(SpellTok(TNot, gap), SpellUnit(x, gap) + k, d);
      ScanUnit(x, gap, k, d);
    case UGroup(b) =>
      ScanLevel(b, gap, [Close] + k, d + 1);
      ScanBrackets(SpellLevel(b, gap), k, d);
  }

  lemma ScanBrackets(body: seq<Tok>, k: seq<Tok>, d: nat)
    requires d > 0
    requires MatchClose(body + ([Close] + k), d + 1) == |body| + MatchClose([Close] + k, d + 1)
    ensures MatchClose([Open] + (body + [Close]) + k, d) == |[Open] + (body + [Close])| + MatchClose(k, d)
  {
    var rest := [Close] + k;
    assert rest[1..] == k;
    var s := [Open] + (body + [Close]) + k;
    assert s[0] == Open && s[1..] == body + rest;
  }

  lemma {:induction false} ScanLevel(lv: Level, gap: bool, k: seq<Tok>, d: nat)
    requires d > 0
    ensures MatchClose(SpellLevel(lv, gap) + k, d) == |SpellLevel(lv, gap)| + MatchClose(k, d)
    decreases lv
  {
    assert SpellLevel(lv, gap) + k == SpellUnit(lv.first, gap) + (SpellRest(lv.rest, gap) + k);
    ScanUnit(lv.first, gap, SpellRest(lv.rest, gap) + k, d);
    ScanRest(lv.rest, gap, k, d);
  }

  lemma {:induction false} ScanRest(r: Rest, gap: bool, k: seq<Tok>, d: nat)
    requires d > 0
    ensures MatchClose(SpellRest(r, gap) + k, d) == |SpellRest(r, gap)| + MatchClose(k, d)
    decreases r
  {
    match r
    case End => assert SpellRest(r, gap) + k == k;
    case More(op, u, tl) =>
      var k1 := SpellRest(tl, gap) + k;
      assert SpellRest(r, gap) + k == SpellTok(OpTok(op), gap) + (SpellUnit(u, gap) + k1);
      ScanPlain(SpellTok(OpTok(op), gap), SpellUnit(u, gap) + k1, d);
      ScanUnit(u, gap, k1, d);
      ScanRest(tl, gap, k, d);
  }

  lemma {:induction false} ScanPlain(ts: seq<Tok>, k: seq<Tok>, d: nat)
    requires d > 0 && Open !in ts && Close !in ts
    ensures MatchClose(ts + k, d) == |ts| + MatchClose(k, d)
  {
    if ts == [] {
      assert ts + k == k;
    } else {
      assert (ts + k)[1..] == ts[1..] + k;
      ScanPlain(ts[1..], k, d);
    }
  }

  lemma BracketSlices(body: seq<Tok>, k: seq<Tok>)
    ensures var ts := [Open] + (body + [Close]) + k;
      && ts[0] == Open && |body| + 1 < |ts| && ts[1..] == body + ([Close] + k)
      && ts[1..][..|body|] == body && ts[1..][|body| + 1..] == k
  {}

  lemma RunBracket(ts: seq<Tok>, body: seq<Tok>, e: Expr, k: seq<Tok>, st: State)
    requires Awaits(st) && ts != [] && ts[0] == Open && |body| + 1 < |ts| && MatchClose(ts[1..], 1) == |body|
    requires ts[1..][..|body|] == body && ts[1..][|body| + 1..] == k && ParseTokens(body) == Ok(e)
    ensures Run(ts, st) == Run(k, Combine(PushGroup(st, e)))
  {
    RunGroupAt(ts, st, |body|);
  }

  lemma RunGroup(body: seq<Tok>, e: Expr, k: seq<Tok>, st: State)
    requires Awaits(st)
    requires MatchClose(body + ([Close] + k), 1) == |body| && ParseTokens(body) == Ok(e)
    ensures Run([Open] + (body + [Close]) + k, st) == Run(k, Combine(PushGroup(st, e)))
  {
    BracketSlices(body, k);
    RunBracket([Open] + (body + [Close]) + k, body, e, k, st);
  }

  lemma RunBlank(k: seq<Tok>, st: State)
    requires Ready(st) && |st.clauses| <= 1 && (k == [] || k[0] == Sp)
    ensures Run(k, st) == Continue(k, st)
  {
    if k != [] {
      assert k == [Sp] + k[1..];
      RunStep(Sp, k[1..], st);
    }
  }

  lemma RunNot(gap: bool, k: seq<Tok>, st: State)
    requires Awaits(st) && k != []
    ensures Run(SpellTok(TNot, gap) + k, st) == Run(k, st.(isNot := true))
  {
    if gap {
      calc {
        Run(SpellTok(TNot, gap) + k, st);
        { assert SpellTok(TNot, gap) + k == [NotKw] + ([Sp] + k); }
        Run([NotKw] + ([Sp] + k), st);
        { RunStep(NotKw, [Sp] + k, st); }
        Run([Sp] + k, st.(isNot := true));
        { RunStep(Sp, k, st.(isNot := true)); }
        Run(k, st.(isNot := true));
      }
    } else {
      RunStep(NotKw, k, st);
    }
  }

  lemma {:induction false} RunUnit(u: Unit, gap: bool, k: seq<Tok>, st: State) returns (st': State)
    requires Awaits(st) && WfUnit(u, k == []) && (k == [] || k[0] == Sp)
    ensures Holds(st', WithClause(st, FoldUnit(u, st.isNot)))
    ensures st'.isNot == (st.isNot || u.UNot?)
    ensures Run(SpellUnit(u, gap) + k, st) == Continue(k, st')
    decreases u
  {
    match u
    case UAtom(a) =>
      RunAtom(a, k, st);
      st' := Combine(PushAtom(st, Attr(a)));
    case UNot(x) =>
      assert SpellUnit(u, gap) + k == SpellTok(TNot, gap) + (SpellUnit(x, gap) + k);
      RunNot(gap, SpellUnit(x, gap) + k, st);
      st' := RunUnit(x, gap, k, st.(isNot := true));
    case UGroup(b) =>
      ParseLevel(b, gap);
      ScanLevel(b, gap, [Close] + k, 1);
      RunGroup(SpellLevel(b, gap), FoldLevel(b), k, st);
      st' := Combine(PushGroup(st, FoldLevel(b)));
      RunBlank(k, st');
  }

  function LogicSeen(st: State, op: LogicOp): State {
    st.(isAttr := true, isLogic := true, isAnd := op == And)
  }

  /** `w` is the operator's word, in any letter case. */
  predicate SpellsLogic(w: string, op: LogicOp) {
    ToLower(w) == if op == And then "and" else "or"
  }

  /** A logical word between two units, the blank before it already read. */
  lemma RunLogicAs(op: LogicOp, w: string, k: seq<Tok>, st: State)
    requires Ready(st) && |st.clauses| <= 1 && SpellsLogic(w, op)
    ensures Run([Word(w), Sp] + k, st) == Run(k, LogicSeen(st, op))
  {
    assert |ToLower(w)| == |w|;
    assert "and"[0] == 'a' && "or"[0] == 'o';
    assert [Word(w), Sp] + k == [Word(w)] + ([Sp] + k);
    RunStep(Word(w), [Sp] + k, st);
    RunStep(Sp, k, st.(isAttr := true, word := w));
  }

  lemma RunLogic(op: LogicOp, gap: bool, k: seq<Tok>, st: State)
    requires Ready(st) && |st.clauses| <= 1
    ensures Continue(SpellTok(OpTok(op), gap) + k, st) == Run(k, LogicSeen(st, op))
  {
    var w := if op == And then "and" else "or";
    assert ToLower(w) == w;
    assert (SpellTok(OpTok(op), gap) + k)[1..] == [Word(w), Sp] + k;
    RunLogicAs(op, w, k, st);
  }

  /** The rest of a level, its first blank already read, and whatever `k` follows it. */
  lemma {:induction false} RunRest(acc: Expr, r: Rest, gap: bool, k: seq<Tok>, st: State) returns (st': State)
    requires Holds(st, acc) && WfRest(r, k == []) && (k == [] || k[0] == Sp)
    ensures Holds(st', FoldRest(acc, r, st.isNot)) && st'.isNot == StickyAfter(r, st.isNot)
    ensures Continue(SpellRest(r, gap) + k, st) == Continue(k, st')
    decreases r
  {
    match r
    case End =>
      assert SpellRest(r, gap) + k == k;
      st' := st;
    case More(op, u, tl) =>
      var k2 := SpellRest(tl, gap) + k;
      var k1 := SpellUnit(u, gap) + k2;
      assert SpellRest(r, gap) + k == SpellTok(OpTok(op), gap) + k1;
      RunLogic(op, gap, k1, st);
      RestEnds(tl, gap, k);
      var s2 := RunUnit(u, gap, k2, LogicSeen(st, op));
      st' := RunRest(Logic(op, acc, FoldUnit(u, st.isNot)), tl, gap, k, s2);
  }

  lemma RestEnds(r: Rest, gap: bool, k: seq<Tok>)
    requires k == [] || k[0] == Sp
    ensures var t := SpellRest(r, gap) + k; (t == [] <==> r == End && k == []) && (t == [] || t[0] == Sp)
  {}

  /** A whole level and whatever follows it. */
  lemma RunLevel(lv: Level, gap: bool, k: seq<Tok>, st: State) returns (st': State)
    requires Awaits(st) && WfLevel(lv, k == []) && (k == [] || k[0] == Sp)
    ensures Holds(st', FoldRest(WithClause(st, FoldUnit(lv.first, st.isNot)), lv.rest, st.isNot || lv.first.UNot?))
    ensures st'.isNot == StickyAfter(lv.rest, st.isNot || lv.first.UNot?)
    ensures Run(SpellLevel(lv, gap) + k, st) == Continue(k, st')
    decreases lv, 1
  {
    var k1 := SpellRest(lv.rest, gap) + k;
    assert SpellLevel(lv, gap) + k == SpellUnit(lv.first, gap) + k1;
    RestEnds(lv.rest, gap, k);
    var s1 := RunUnit(lv.first, gap, k1, st);
    st' := RunRest(WithClause(st, FoldUnit(lv.first, st.isNot)), lv.rest, gap, k, s1);
  }

  lemma {:induction false} ParseLevel(lv: Level, gap: bool)
    requires WfLevel(lv, true)
    ensures ParseTokens(SpellLevel(lv, gap)) == Ok(FoldLevel(lv))
    decreases lv, 2
  {
    assert SpellLevel(lv, gap) + [] == SpellLevel(lv, gap);
    var st := RunLevel(lv, gap, [], START);
  }

  /** Main result: on the text of any well-spelled level, ParseFilter returns the left fold of
      its clauses, a group being negated exactly when some `not` came earlier at its level. */
  lemma ParseIsLeftFold(lv: Level, gap: bool)
    requires WfLevel(lv, true)
    ensures ParseTokens(Spell(LevelText(lv), gap)) == Ok(FoldLevel(lv))
  {
    SpellLevelText(lv, gap);
    ParseLevel(lv, gap);
  }
}
