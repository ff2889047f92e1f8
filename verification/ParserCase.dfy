/** Logical words and operators in any letter case, and blanks written twice: ParseFilter reads the
    text as if they were written plainly. */
module ParserCase {
  import opened Idql
  import opened Strings
  import opened Surface
  import opened Parser
  import opened ParserFold

  // ----- a level with the words it is written with

  datatype WUnit = WAtom(atom: Atom, word: string) | WNot(arg: WUnit) | WGroup(body: WLevel)
  datatype WLevel = WLevel(first: WUnit, rest: WRest)
  datatype WRest = WEnd | WMore(op: LogicOp, word: string, next: WUnit, tail: WRest)

  function PlainUnit(w: WUnit): Unit {
    match w
    case WAtom(a, _) => UAtom(a)
    case WNot(x) => UNot(PlainUnit(x))
    case WGroup(b) => UGroup(Plain(b))
  }

  function Plain(w: WLevel): Level {
    Level(PlainUnit(w.first), PlainRest(w.rest))
  }

  function PlainRest(w: WRest): Rest {
    match w
    case WEnd => End
    case WMore(op, _, u, tl) => More(op, PlainUnit(u), PlainRest(tl))
  }

  /** Each word is its operator's, in any letter case. */
  predicate FitUnit(w: WUnit) {
    match w
    case WAtom(a, word) => SpellsOp(word, a.op)
    case WNot(x) => FitUnit(x)
    case WGroup(b) => Fit(b)
  }

  predicate Fit(w: WLevel) {
    FitUnit(w.first) && FitRest(w.rest)
  }

  predicate FitRest(w: WRest) {
    match w
    case WEnd => true
    case WMore(op, word, u, tl) => SpellsLogic(word, op) && FitUnit(u) && FitRest(tl)
  }

  function WriteUnit(w: WUnit, gap: bool): seq<Tok> {
    match w
    case WAtom(a, word) => SpellAtomAs(a, word)
    case WNot(x) => SpellTok(TNot, gap) + WriteUnit(x, gap)
    case WGroup(b) => [Open] + (Write(b, gap) + [Close])
  }

  function Write(w: WLevel, gap: bool): seq<Tok> {
    WriteUnit(w.first, gap) + WriteRest(w.rest, gap)
  }

  function WriteRest(w: WRest, gap: bool): seq<Tok> {
    match w
    case WEnd => []
    case WMore(_, word, u, tl) => [Sp] + ([Word(word), Sp] + (WriteUnit(u, gap) + WriteRest(tl, gap)))
  }

  // ----- every level can be written so, and in lower case it is the usual spelling

  function LiftUnit(u: Unit): WUnit {
    match u
    case UAtom(a) => WAtom(a, OpWord(a.op))
    case UNot(x) => WNot(LiftUnit(x))
    case UGroup(b) => WGroup(Lift(b))
  }

  function Lift(lv: Level): WLevel {
    WLevel(LiftUnit(lv.first), LiftRest(lv.rest))
  }

  function LiftRest(r: Rest): WRest {
    match r
    case End => WEnd
    case More(op, u, tl) => WMore(op, if op == And then "and" else "or", LiftUnit(u), LiftRest(tl))
  }

  lemma {:induction false} LiftedUnit(u: Unit, gap: bool)
    ensures PlainUnit(LiftUnit(u)) == u && FitUnit(LiftUnit(u)) && WriteUnit(LiftUnit(u), gap) == SpellUnit(u, gap)
    decreases u
  {
    match u
    case UAtom(a) => assert ToLower(OpWord(a.op)) == OpWord(a.op);
    case UNot(x) => LiftedUnit(x, gap);
    case UGroup(b) => Lifted(b, gap);
  }

  lemma {:induction false} Lifted(lv: Level, gap: bool)
    ensures Plain(Lift(lv)) == lv && Fit(Lift(lv)) && Write(Lift(lv), gap) == SpellLevel(lv, gap)
    decreases lv
  {
    LiftedUnit(lv.first, gap);
    LiftedRest(lv.rest, gap);
  }

  lemma {:induction false} LiftedRest(r: Rest, gap: bool)
    ensures PlainRest(LiftRest(r)) == r && FitRest(LiftRest(r)) && WriteRest(LiftRest(r), gap) == SpellRest(r, gap)
    decreases r
  {
    match r
    case End =>
    case More(op, u, tl) =>
      var w := if op == And then "and" else "or";
      assert ToLower(w) == w;
      LiftedUnit(u, gap);
      LiftedRest(tl, gap);
      Assoc([Sp], [Word(w), Sp], SpellUnit(u, gap) + SpellRest(tl, gap));
      assert SpellTok(OpTok(op), gap) == [Sp] + [Word(w), Sp];
  }

  // ----- the bracket scan

  lemma {:induction false} ScanWUnit(w: WUnit, gap: bool, k: seq<Tok>, d: nat)
    requires d > 0
    ensures MatchClose(WriteUnit(w, gap) + k, d) == |WriteUnit(w, gap)| + MatchClose(k, d)
    decreases w
  {
    match w
    case WAtom(a, word) => ScanPlain(SpellAtomAs(a, word), k, d);
    case WNot(x) =>
      Assoc(SpellTok(TNot, gap), WriteUnit(x, gap), k);
      ScanPlain(SpellTok(TNot, gap), WriteUnit(x, gap) + k, d);
      ScanWUnit(x, gap, k, d);
    case WGroup(b) =>
      ScanWritten(b, gap, [Close] + k, d + 1);
      ScanBrackets(Write(b, gap), k, d);
  }

  lemma {:induction false} ScanWritten(w: WLevel, gap: bool, k: seq<Tok>, d: nat)
    requires d > 0
    ensures MatchClose(Write(w, gap) + k, d) == |Write(w, gap)| + MatchClose(k, d)
    decreases w
  {
    Assoc(WriteUnit(w.first, gap), WriteRest(w.rest, gap), k);
    ScanWUnit(w.first, gap, WriteRest(w.rest, gap) + k, d);
    ScanWRest(w.rest, gap, k, d);
  }

  lemma {:induction false} ScanWRest(w: WRest, gap: bool, k: seq<Tok>, d: nat)
    requires d > 0
    ensures MatchClose(WriteRest(w, gap) + k, d) == |WriteRest(w, gap)| + MatchClose(k, d)
    decreases w
  {
    match w
    case WEnd => assert WriteRest(w, gap) + k == k;
    case WMore(_, word, u, tl) =>
      var k1 := WriteRest(tl, gap) + k;
      MoreText(word, WriteUnit(u, gap), WriteRest(tl, gap), k);
      ScanPlain([Sp], [Word(word), Sp] + (WriteUnit(u, gap) + k1), d);
      ScanPlain([Word(word), Sp], WriteUnit(u, gap) + k1, d);
      ScanWUnit(u, gap, k1, d);
      ScanWRest(tl, gap, k, d);
  }

  lemma MoreText(word: string, a: seq<Tok>, b: seq<Tok>, k: seq<Tok>)
    ensures [Sp] + ([Word(word), Sp] + (a + b)) + k == [Sp] + ([Word(word), Sp] + (a + (b + k)))
  {}

  // ----- the run

  lemma {:induction false} RunWUnit(w: WUnit, gap: bool, k: seq<Tok>, st: State) returns (st': State)
    requires Awaits(st) && WfUnit(PlainUnit(w), k == []) && (k == [] || k[0] == Sp) && FitUnit(w)
    ensures Holds(st', WithClause(st, FoldUnit(PlainUnit(w), st.isNot)))
    ensures st'.isNot == (st.isNot || w.WNot?)
    ensures Run(WriteUnit(w, gap) + k, st) == Continue(k, st')
    decreases w
  {
    match w
    case WAtom(a, word) =>
      RunAtomAs(a, word, k, st);
      st' := Combine(PushAtom(st, Attr(a)));
      HoldsAfter(st, Attr(a));
    case WNot(x) =>
      RunWNot(x, gap, k, st);
      st' := RunWUnit(x, gap, k, st.(isNot := true));
    case WGroup(b) =>
      ParseWritten(b, gap);
      RunWGroup(b, gap, k, st);
      st' := Combine(PushGroup(st, FoldLevel(Plain(b))));
  }

  /** A comparison pushed onto a state that awaits one. */
  lemma HoldsAfter(st: State, e: Expr)
    requires Awaits(st)
    ensures Holds(Combine(PushAtom(st, e)), WithClause(st, e)) && Combine(PushAtom(st, e)).isNot == st.isNot
  {}

  lemma RunWNot(x: WUnit, gap: bool, k: seq<Tok>, st: State)
    requires Awaits(st)
    ensures Run(WriteUnit(WNot(x), gap) + k, st) == Run(WriteUnit(x, gap) + k, st.(isNot := true))
  {
    Assoc(SpellTok(TNot, gap), WriteUnit(x, gap), k);
    assert WriteUnit(x, gap) != [];
    RunNot(gap, WriteUnit(x, gap) + k, st);
  }

  lemma RunWGroup(b: WLevel, gap: bool, k: seq<Tok>, st: State)
    requires Awaits(st) && (k == [] || k[0] == Sp) && ParseTokens(Write(b, gap)) == Ok(FoldLevel(Plain(b)))
    ensures Run([Open] + (Write(b, gap) + [Close]) + k, st) == Continue(k, Combine(PushGroup(st, FoldLevel(Plain(b)))))
  {
    ScanWritten(b, gap, [Close] + k, 1);
    RunGroup(Write(b, gap), FoldLevel(Plain(b)), k, st);
    RunBlank(k, Combine(PushGroup(st, FoldLevel(Plain(b)))));
  }

  lemma WRestEnds(w: WRest, gap: bool, k: seq<Tok>)
    requires k == [] || k[0] == Sp
    ensures var t := WriteRest(w, gap) + k; (t == [] <==> w == WEnd && k == []) && (t == [] || t[0] == Sp)
  {}

  lemma {:induction false} RunWRest(acc: Expr, w: WRest, gap: bool, k: seq<Tok>, st: State) returns (st': State)
    requires Holds(st, acc) && WfRest(PlainRest(w), k == []) && (k == [] || k[0] == Sp) && FitRest(w)
    ensures Holds(st', FoldRest(acc, PlainRest(w), st.isNot))
    ensures Continue(WriteRest(w, gap) + k, st) == Continue(k, st')
    decreases w
  {
    match w
    case WEnd =>
      assert WriteRest(w, gap) + k == k;
      st' := st;
    case WMore(op, word, u, tl) =>
      var k2 := WriteRest(tl, gap) + k;
      MoreText(word, WriteUnit(u, gap), WriteRest(tl, gap), k);
      MoreStarts(word, WriteUnit(u, gap) + k2, st);
      RunLogicAs(op, word, WriteUnit(u, gap) + k2, st);
      WRestEnds(tl, gap, k);
      var s2 := RunWUnit(u, gap, k2, LogicSeen(st, op));
      st' := RunWRest(Logic(op, acc, FoldUnit(PlainUnit(u), st.isNot)), tl, gap, k, s2);
  }

  lemma MoreStarts(word: string, k: seq<Tok>, st: State)
    ensures Continue([Sp] + ([Word(word), Sp] + k), st) == Run([Word(word), Sp] + k, st)
  {
    assert ([Sp] + ([Word(word), Sp] + k))[1..] == [Word(word), Sp] + k;
  }

  /** Main result: on the text of any well-spelled level, its logical words and operators in any
      letter case, ParseFilter returns the left fold of its clauses. */
  lemma {:induction false} ParseWritten(w: WLevel, gap: bool)
    requires WfLevel(Plain(w), true) && Fit(w)
    ensures ParseTokens(Write(w, gap)) == Ok(FoldLevel(Plain(w)))
    decreases w, 2
  {
    var k1 := WriteRest(w.rest, gap);
    assert k1 + [] == k1;
    WRestEnds(w.rest, gap, []);
    assert k1 == [] <==> PlainRest(w.rest) == End;
    assert WfUnit(PlainUnit(w.first), k1 == []);
    var s1 := RunWUnit(w.first, gap, k1, START);
    var st := RunWRest(FoldUnit(PlainUnit(w.first), false), w.rest, gap, [], s1);
  }

  // ----- a last word that is not an operator

  lemma RunUnread(path: string, word: string, st: State)
    requires Awaits(st) && path != "" && !IsLogicWord(path) && word != ""
    ensures Run([Word(path), Sp, Word(word)], st) == Finish(Combine(PushAtom(st, Attr(Atom(path, PR, "")))))
  {
    var s := st.(isAttr := true, attr := path);
    assert [Word(path), Sp, Word(word)] == [Word(path), Sp] + [Word(word)];
    RunPath(Atom(path, PR, ""), [Word(word)], st);
    RunStep(Word(word), [], s);
  }

  /** Where the text ends behind an attribute and one more word, that word is not looked at: whatever
      it is, a presence test is returned. */
  lemma LastWordUnread(path: string, word: string)
    requires path != "" && !IsLogicWord(path) && word != ""
    ensures ParseTokens([Word(path), Sp, Word(word)]) == Ok(Attr(Atom(path, PR, "")))
    ensures forall w: WLevel, gap, op, logic |
        WfLevel(Plain(w), false) && Fit(w) && SpellsLogic(logic, op) ::
      ParseTokens(Write(w, gap) + ([Sp] + ([Word(logic), Sp] + [Word(path), Sp, Word(word)])))
        == Ok(Logic(op, FoldLevel(Plain(w)), Attr(Atom(path, PR, ""))))
  {
    RunUnread(path, word, START);
    forall w: WLevel, gap, op, logic | WfLevel(Plain(w), false) && Fit(w) && SpellsLogic(logic, op)
      ensures ParseTokens(Write(w, gap) + ([Sp] + ([Word(logic), Sp] + [Word(path), Sp, Word(word)])))
           == Ok(Logic(op, FoldLevel(Plain(w)), Attr(Atom(path, PR, ""))))
    {
      UnreadBehind(w, gap, op, logic, path, word);
    }
  }

  lemma UnreadBehind(w: WLevel, gap: bool, op: LogicOp, logic: string, path: string, word: string)
    requires WfLevel(Plain(w), false) && Fit(w) && SpellsLogic(logic, op)
    requires path != "" && !IsLogicWord(path) && word != ""
    ensures ParseTokens(Write(w, gap) + ([Sp] + ([Word(logic), Sp] + [Word(path), Sp, Word(word)])))
         == Ok(Logic(op, FoldLevel(Plain(w)), Attr(Atom(path, PR, ""))))
  {
    var end := [Word(path), Sp, Word(word)];
    var k := [Sp] + ([Word(logic), Sp] + end);
    var k1 := WriteRest(w.rest, gap) + k;
    WRestEnds(w.rest, gap, k);
    Assoc(WriteUnit(w.first, gap), WriteRest(w.rest, gap), k);
    var s1 := RunWUnit(w.first, gap, k1, START);
    var st := RunWRest(FoldUnit(PlainUnit(w.first), false), w.rest, gap, k, s1);
    MoreStarts(logic, end, st);
    RunLogicAs(op, logic, end, st);
    RunUnread(path, word, LogicSeen(st, op));
  }

  lemma {:induction false} MatchLast(a: seq<Tok>, d: nat)
    requires d > 0
    ensures MatchClose(a + [NotKw], d) == MatchClose(a + [Word("not")], d)
  {
    if a == [] {
      assert a + [NotKw] == [NotKw] + [] && a + [Word("not")] == [Word("not")] + [];
    } else {
      assert (a + [NotKw])[1..] == a[1..] + [NotKw] && (a + [Word("not")])[1..] == a[1..] + [Word("not")];
      if !(a[0] == Close && d == 1) {
        MatchLast(a[1..], if a[0] == Close then d - 1 else if a[0] == Open then d + 1 else d);
      }
    }
  }

  /** For any text whatever: a `not` at its very end is a word like any other. */
  lemma {:induction false} LastNotIsWord(a: seq<Tok>, st: State)
    ensures Run(a + [NotKw], st) == Run(a + [Word("not")], st)
    decreases |a|
  {
    var x, y := a + [NotKw], a + [Word("not")];
    if a == [] {
      assert x == [NotKw] && y == [Word("not")] && x[1..] == y[1..];
      RunStepAt(x, st);
      RunStepAt(y, st);
    } else {
      var c := a[1..];
      assert x[0] == y[0] == a[0] && x[1..] == c + [NotKw] && y[1..] == c + [Word("not")];
      if a[0] == Open && !st.isValue && st.word == "" {
        var j := MatchClose(x[1..], 1);
        MatchLast(c, 1);
        RunGroupAt(x, st, j);
        RunGroupAt(y, st, j);
        if j < |c| {
          assert x[1..][..j] == y[1..][..j] == c[..j];
          assert x[1..][j + 1..] == c[j + 1..] + [NotKw] && y[1..][j + 1..] == c[j + 1..] + [Word("not")];
          if ParseTokens(c[..j]).Ok? {
            LastNotIsWord(c[j + 1..], Combine(PushGroup(st, ParseTokens(c[..j]).value)));
          }
        }
      } else {
        RunStepAt(x, st);
        RunStepAt(y, st);
        if Step(st, a[0]).Ok? {
          LastNotIsWord(c, Step(st, a[0]).value);
        }
      }
    }
  }

  // ----- brackets that do not match

  /** A closing bracket behind a comparison. */
  lemma AtomThenClose(a: Atom, w: string, st: State)
    requires Awaits(st) && WfAtom(a) && SpellsOp(w, a.op)
    ensures Run(SpellAtomAs(a, w) + [Close], st) == Err(MissingOpen)
  {
    var s := st.(isAttr := true, attr := a.path);
    SpeltOp(w, a.op);
    if a.op == PR {
      assert SpellAtomAs(a, w) + [Close] == [Word(a.path), Sp] + ([Word(w)] + [Close]);
      RunPath(a, [Word(w)] + [Close], st);
      RunStep(Word(w), [Close], s);
    } else {
      var k1 := [Word(a.value)] + [Close];
      var s1 := s.(isExpr := true, cond := w);
      assert SpellAtomAs(a, w) + [Close] == [Word(a.path), Sp] + ([Word(w), Sp] + k1);
      RunPath(a, [Word(w), Sp] + k1, st);
      RunOp(a, w, k1, st);
      RunStep(Word(a.value), [Close], s1);
      RunStep(Close, [], Flag(s1).(word := a.value));
    }
  }

  lemma {:induction false} UnitThenClose(w: WUnit, gap: bool, st: State)
    requires Awaits(st) && WfUnit(PlainUnit(w), true) && FitUnit(w)
    ensures Run(WriteUnit(w, gap) + [Close], st) == Err(MissingOpen)
    decreases w
  {
    match w
    case WAtom(a, word) => AtomThenClose(a, word, st);
    case WNot(x) =>
      RunWNot(x, gap, [Close], st);
      UnitThenClose(x, gap, st.(isNot := true));
    case WGroup(b) =>
      ParseWritten(b, gap);
      ScanWritten(b, gap, [Close] + [Close], 1);
      RunGroup(Write(b, gap), FoldLevel(Plain(b)), [Close], st);
      RunStep(Close, [], Combine(PushGroup(st, FoldLevel(Plain(b)))));
  }

  lemma {:induction false} RestThenClose(acc: Expr, w: WRest, gap: bool, st: State)
    requires Holds(st, acc) && WfRest(PlainRest(w), true) && FitRest(w) && w.WMore?
    ensures Continue(WriteRest(w, gap) + [Close], st) == Err(MissingOpen)
    decreases w
  {
    var k := WriteRest(w.tail, gap) + [Close];
    MoreText(w.word, WriteUnit(w.next, gap), WriteRest(w.tail, gap), [Close]);
    MoreStarts(w.word, WriteUnit(w.next, gap) + k, st);
    RunLogicAs(w.op, w.word, WriteUnit(w.next, gap) + k, st);
    var s1 := LogicSeen(st, w.op);
    assert PlainRest(w.tail) == End <==> w.tail.WEnd?;
    if w.tail.WEnd? {
      assert k == [Close];
      UnitThenClose(w.next, gap, s1);
    } else {
      var s2 := RunWUnit(w.next, gap, k, s1);
      RestThenClose(Logic(w.op, acc, FoldUnit(PlainUnit(w.next), st.isNot)), w.tail, gap, s2);
    }
  }

  /** Main result about brackets: behind the text of any well-spelled level a closing bracket is
      refused, and so is an opening one in front of it. */
  lemma BracketsRefused(w: WLevel, gap: bool)
    requires WfLevel(Plain(w), true) && Fit(w)
    ensures ParseTokens(Write(w, gap) + [Close]) == Err(MissingOpen)
    ensures ParseTokens([Open] + Write(w, gap)) == Err(MissingClose)
  {
    var ts := [Open] + Write(w, gap);
    assert ts[1..] == Write(w, gap) && Write(w, gap) + [] == Write(w, gap);
    ScanWritten(w, gap, [], 1);
    RunGroupAt(ts, START, |ts| - 1);
    var k := WriteRest(w.rest, gap) + [Close];
    Assoc(WriteUnit(w.first, gap), WriteRest(w.rest, gap), [Close]);
    assert PlainRest(w.rest) == End <==> w.rest.WEnd?;
    if w.rest.WEnd? {
      assert k == [Close];
      UnitThenClose(w.first, gap, START);
    } else {
      var s1 := RunWUnit(w.first, gap, k, START);
      RestThenClose(FoldUnit(PlainUnit(w.first), false), w.rest, gap, s1);
    }
  }

  // ----- blanks written twice

  /** A blank leaves nothing for another blank to do. */
  lemma WordEnded(st: State)
    ensures EndWord(st).Ok? ==> EndWord(EndWord(st).value) == EndWord(st)
  {
    var r := EndWord(st);
    if r.Ok? {
      assert r.value.word == "" || r.value == st;
    }
  }

  lemma CombinedEnded(st: State)
    requires EndWord(st) == Ok(st)
    ensures EndWord(Combine(st)) == Ok(Combine(st)) && Combine(Combine(st)) == Combine(st)
  {
    if st.word != "" {
      assert !IsLogicWord(st.word) && !(st.isAttr && st.attr == "");
      assert !(st.isExpr && st.cond == "") && !st.isValue;
    }
  }

  /** Reading a blank twice changes nothing. */
  lemma BlankTwice(st: State)
    ensures Step(st, Sp).Ok? ==> Step(Step(st, Sp).value, Sp) == Step(st, Sp)
  {
    WordEnded(st);
    if EndWord(st).Ok? {
      CombinedEnded(EndWord(st).value);
    }
  }

  lemma MatchStep(t: Tok, k: seq<Tok>, d: nat)
    requires d > 0
    ensures MatchClose([t] + k, d) ==
      if t == Close && d == 1 then 0
      else 1 + MatchClose(k, if t == Close then d - 1 else if t == Open then d + 1 else d)
  {
    assert ([t] + k)[1..] == k;
  }

  lemma {:induction false} MatchBlank(a: seq<Tok>, b: seq<Tok>, d: nat)
    requires d > 0
    ensures var m := MatchClose(a + ([Sp] + b), d);
      MatchClose(a + ([Sp, Sp] + b), d) == if m < |a| then m else m + 1
  {
    if a == [] {
      assert [Sp, Sp] + b == [Sp] + ([Sp] + b);
      assert a + ([Sp] + b) == [Sp] + b && a + ([Sp, Sp] + b) == [Sp, Sp] + b;
      MatchStep(Sp, [Sp] + b, d);
    } else {
      var t, c := a[0], a[1..];
      assert a + ([Sp] + b) == [t] + (c + ([Sp] + b)) && a + ([Sp, Sp] + b) == [t] + (c + ([Sp, Sp] + b));
      MatchStep(t, c + ([Sp] + b), d);
      MatchStep(t, c + ([Sp, Sp] + b), d);
      if !(t == Close && d == 1) {
        MatchBlank(c, b, if t == Close then d - 1 else if t == Open then d + 1 else d);
      }
    }
  }

  /** Main result, for any text whatever: a blank may as well be written twice. */
  lemma {:induction false} BlanksMerge(a: seq<Tok>, b: seq<Tok>, st: State)
    ensures Run(a + ([Sp, Sp] + b), st) == Run(a + ([Sp] + b), st)
    decreases |a| + |b|
  {
    var x, y := a + ([Sp] + b), a + ([Sp, Sp] + b);
    if a == [] {
      assert x == [Sp] + b && y == [Sp] + ([Sp] + b);
      RunStep(Sp, b, st);
      RunStep(Sp, [Sp] + b, st);
      BlankTwice(st);
      if Step(st, Sp).Ok? {
        RunStep(Sp, b, Step(st, Sp).value);
      }
    } else {
      assert x[0] == y[0] == a[0] && x[1..] == a[1..] + ([Sp] + b) && y[1..] == a[1..] + ([Sp, Sp] + b);
      if a[0] == Open && !st.isValue && st.word == "" {
        BlanksMergeGroup(a, b, st);
      } else {
        RunStepAt(x, st);
        RunStepAt(y, st);
        assert Head(x) == Head(y) == a[0];
        if Step(st, a[0]).Ok? {
          BlanksMerge(a[1..], b, Step(st, a[0]).value);
        }
      }
    }
  }

  /** A group with its text and what follows it. */
  lemma GroupRuns(ts: seq<Tok>, st: State, inner: seq<Tok>, after: seq<Tok>)
    requires ts != [] && ts[0] == Open && !st.isValue && st.word == ""
    requires MatchClose(ts[1..], 1) == |inner| < |ts| - 1
    requires ts[1..][..|inner|] == inner && ts[1..][|inner| + 1..] == after
    ensures Run(ts, st) ==
      if ParseTokens(inner).Err? then ParseTokens(inner)
      else Run(after, Combine(PushGroup(st, ParseTokens(inner).value)))
  {
    RunGroupAt(ts, st, |inner|);
  }

  /** The same where a bracket group opens: the blank is in the group or after it. */
  lemma {:induction false} BlanksMergeGroup(a: seq<Tok>, b: seq<Tok>, st: State)
    requires a != [] && a[0] == Open && !st.isValue && st.word == ""
    ensures Run(a + ([Sp, Sp] + b), st) == Run(a + ([Sp] + b), st)
    decreases |a| + |b|, 0
  {
    var x, y, c := a + ([Sp] + b), a + ([Sp, Sp] + b), a[1..];
    assert x[0] == y[0] == Open && x[1..] == c + ([Sp] + b) && y[1..] == c + ([Sp, Sp] + b);
    var j := MatchClose(x[1..], 1);
    MatchBlank(c, b, 1);
    if j < |c| {
      if ParseTokens(c[..j]).Ok? {
        BlanksMerge(c[j + 1..], b, Combine(PushGroup(st, ParseTokens(c[..j]).value)));
      }
      BlankBehind(x, y, c, b, j, st);
    } else if j < |x| - 1 {
      BlanksMerge(c, b[..j - |c| - 1], START);
      BlankInside(x, y, c, b, j - |c| - 1, st);
    } else {
      RunGroupAt(x, st, j);
      RunGroupAt(y, st, j + 1);
    }
  }

  lemma BlankBehind(x: seq<Tok>, y: seq<Tok>, c: seq<Tok>, b: seq<Tok>, j: nat, st: State)
    requires !st.isValue && st.word == "" && x != [] && y != [] && x[0] == y[0] == Open
    requires x[1..] == c + ([Sp] + b) && y[1..] == c + ([Sp, Sp] + b)
    requires j < |c| && MatchClose(x[1..], 1) == MatchClose(y[1..], 1) == j
    requires ParseTokens(c[..j]).Ok? ==>
      var s := Combine(PushGroup(st, ParseTokens(c[..j]).value));
      Run(c[j + 1..] + ([Sp, Sp] + b), s) == Run(c[j + 1..] + ([Sp] + b), s)
    ensures Run(y, st) == Run(x, st)
  {
    SlicesBefore(c, b, j);
    GroupRuns(x, st, c[..j], c[j + 1..] + ([Sp] + b));
    GroupRuns(y, st, c[..j], c[j + 1..] + ([Sp, Sp] + b));
  }

  lemma BlankInside(x: seq<Tok>, y: seq<Tok>, c: seq<Tok>, b: seq<Tok>, n: nat, st: State)
    requires !st.isValue && st.word == "" && x != [] && y != [] && x[0] == y[0] == Open && n < |b|
    requires x[1..] == c + ([Sp] + b) && y[1..] == c + ([Sp, Sp] + b)
    requires MatchClose(x[1..], 1) == |c| + 1 + n && MatchClose(y[1..], 1) == |c| + 2 + n
    requires ParseTokens(c + ([Sp, Sp] + b[..n])) == ParseTokens(c + ([Sp] + b[..n]))
    ensures Run(y, st) == Run(x, st)
  {
    SlicesAfter(c, b, n);
    GroupRuns(x, st, c + ([Sp] + b[..n]), b[n + 1..]);
    GroupRuns(y, st, c + ([Sp, Sp] + b[..n]), b[n + 1..]);
  }

  lemma SlicesBefore(c: seq<Tok>, b: seq<Tok>, j: nat)
    requires j < |c|
    ensures var x, y := c + ([Sp] + b), c + ([Sp, Sp] + b);
      && x[..j] == y[..j] == c[..j]
      && x[j + 1..] == c[j + 1..] + ([Sp] + b) && y[j + 1..] == c[j + 1..] + ([Sp, Sp] + b)
  {}

  lemma SlicesAfter(c: seq<Tok>, b: seq<Tok>, n: nat)
    requires n < |b|
    ensures var x, y := c + ([Sp] + b), c + ([Sp, Sp] + b);
      && x[..|c| + 1 + n] == c + ([Sp] + b[..n]) && y[..|c| + 2 + n] == c + ([Sp, Sp] + b[..n])
      && x[|c| + 2 + n..] == b[n + 1..] && y[|c| + 3 + n..] == b[n + 1..]
  {}
}
