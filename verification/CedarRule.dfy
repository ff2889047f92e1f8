/** The rule a Cedar policy is mapped to, read by the repository's own parser: what is reported when
    clauses are lost, what ParseFilter makes of the rest, and when the meaning survives. */
module CedarRule {
  import opened Collections
  import opened Idql
  import opened Surface
  import opened Once
  import opened Parser
  import opened ParserFold
  import opened ParserMeaning
  import opened ParserIs
  import opened CedarNode
  import opened CedarWord
  import opened CedarRead

  // ----- errors

  predicate Reported(r: Mapped) {
    r.Panics? || (r.Mapped? && r.failed)
  }

  /** A loss that is noticed: a panic, a refusal in the last clause, or one in an `unless` among
      several. */
  predicate Noticed(cs: seq<Condition>, i: nat)
    requires i < |cs|
  {
    var body := cs[i].body;
    Crashes(body) || (!Supported(body) && (i == |cs| - 1 || cs[i].isUnless))
  }

  /** A node the mapper takes without being able to say it: no error comes of it anywhere. */
  predicate Swallowed(n: Node) {
    Supported(n) && !Expressible(n)
  }

  lemma {:induction false} NoticedIsLoss(n: Node)
    ensures Crashes(n) ==> !Supported(n)
    ensures !Supported(n) ==> !Expressible(n)
  {
    var w: World := f => true;
    if Expressible(n) {
      ExpressibleMeaning(n, w);
    }
    assert MapCedarNode(n, true).Tree? <==> Supported(n);
  }

  /** Main result: an error or a panic comes back exactly when some loss is noticed; so "what IDQL
      cannot express is reported" holds exactly when everything is expressible or some loss is
      noticed. It fails when all that is lost are refused `when` clauses before the last and operands
      the mapper passes over. */
  lemma ReportedExactly(cs: seq<Condition>)
    ensures Reported(MapConditions(cs)) <==> exists i :: 0 <= i < |cs| && Noticed(cs, i)
    ensures Reported(MapConditions(cs)) ==> !AllExpressible(cs)
    ensures (Reported(MapConditions(cs)) <==> !AllExpressible(cs))
       <==> (AllExpressible(cs) || exists i :: 0 <= i < |cs| && Noticed(cs, i))
    ensures (forall i :: 0 <= i < |cs| ==> Swallowed(cs[i].body)) ==> !Reported(MapConditions(cs))
  {
    forall i | 0 <= i < |cs|
      ensures Crashes(cs[i].body) ==> !Supported(cs[i].body)
      ensures !Supported(cs[i].body) ==> !Expressible(cs[i].body)
    {
      NoticedIsLoss(cs[i].body);
    }
    if cs != [] && !Supported(cs[|cs| - 1].body) {
      assert Noticed(cs, |cs| - 1);
    }
    if i :| 0 <= i < |cs| && ClausePanics(cs[i]) {
      assert Noticed(cs, i);
    }
    if i :| 0 <= i < |cs| && Noticed(cs, i) {
      assert i == |cs| - 1 || ClausePanics(cs[i]);
    }
  }

  /** The smallest example: the subject of a `like` is refused, no error comes back, and the rule
      compares the empty string. */
  lemma SubjectSwallowed(subject: Operand)
    requires !Expressed(subject)
    ensures var cs := [Condition(false, NLike(subject, "z*"))];
      && !AllExpressible(cs) && !Reported(MapConditions(cs))
      && MapConditions(cs) == Mapped([TAtom(Atom(EMPTY, SW, "\"z\""))], false, false)
  {
    var cs := [Condition(false, NLike(subject, "z*"))];
    PatternExact("z*", "z");
    CleanImplies(subject);
    assert !Expressible(cs[0].body);
    assert "z*" == "z" + "*";
    assert MapCedarNode(cs[0].body, false) == Tree(Attr(Atom(EMPTY, SW, Quote("z"))));
    assert Quote("z") == "\"z\"";
  }

  // ----- words

  /** The comparison can stand anywhere in a rule and be read back as it is. */
  predicate AtomWords(a: Atom) {
    SpeltAtom(a) && !IsLogicWord(a.value)
  }

  predicate ExprWords(e: Expr) {
    match e
    case Attr(a) => AtomWords(a)
    case Not(x) => ExprWords(x)
    case Prec(x) => ExprWords(x)
    case Logic(_, l, r) => ExprWords(l) && ExprWords(r)
  }

  /** The words of what a node becomes; one that is not taken has none. */
  predicate NodeWords(n: Node) {
    match n
    case NAnd(l, r) => NodeWords(l) && NodeWords(r)
    case NOr(l, r) => NodeWords(l) && NodeWords(r)
    case NNot(x) => NodeWords(x)
    case _ => MapLeaf(n).Tree? ==> ExprWords(MapLeaf(n).expr)
  }

  predicate ClauseWords(cs: seq<Condition>) {
    forall i :: 0 <= i < |cs| ==> NodeWords(cs[i].body)
  }

  lemma {:induction false} MapKeepsWords(n: Node, isNested: bool)
    requires NodeWords(n) && Supported(n)
    ensures ExprWords(MapCedarNode(n, isNested).expr)
  {
    match n
    case NAnd(l, r) => MapKeepsWords(l, true); MapKeepsWords(r, true);
    case NOr(l, r) => MapKeepsWords(l, isNested); MapKeepsWords(r, isNested);
    case NNot(x) => MapKeepsWords(x, isNested);
    case _ =>
  }

  lemma {:induction false} SpeltJoin(l: Rest, op: LogicOp, r: Level)
    requires SpeltRest(l, false) && Spelt(r, false)
    ensures SpeltRest(JoinRest(l, op, r), false)
    decreases l
  {
    match l
    case End =>
    case More(_, _, tl) => SpeltJoin(tl, op, r);
  }

  lemma {:induction false} WeakenUnit(u: Unit)
    requires SpeltUnit(u, false)
    ensures SpeltUnit(u, true)
  {
    match u
    case UAtom(_) =>
    case UNot(x) => WeakenUnit(x);
    case UGroup(_) =>
  }

  lemma {:induction false} WeakenRest(r: Rest)
    requires SpeltRest(r, false)
    ensures SpeltRest(r, true)
  {
    match r
    case End =>
    case More(_, u, tl) => WeakenUnit(u); WeakenRest(tl);
  }

  lemma WeakenLevel(lv: Level)
    requires Spelt(lv, false)
    ensures Spelt(lv, true)
  {
    WeakenUnit(lv.first);
    WeakenRest(lv.rest);
  }

  lemma {:induction false} PrintSpelt(e: Expr)
    requires ExprWords(e)
    ensures Spelt(PrintLevel(e), false)
  {
    match e
    case Attr(_) =>
    case Not(x) =>
      PrintSpelt(x);
      WeakenLevel(PrintLevel(x));
      assert SpeltUnit(UGroup(PrintLevel(x)), false);
    case Prec(x) =>
      PrintSpelt(x);
      WeakenLevel(PrintLevel(x));
    case Logic(op, l, r) =>
      PrintSpelt(l);
      PrintSpelt(r);
      SpeltJoin(PrintLevel(l).rest, op, PrintLevel(r));
      WeakenUnit(PrintLevel(l).first);
  }

  // ----- the level of a clause

  function KeptLevel(c: Condition, isSingle: bool): Level
    requires Supported(c.body)
  {
    var e := MapCedarNode(c.body, !isSingle).expr;
    PrintLevel(if c.isUnless && !isSingle then Not(e) else e)
  }

  lemma KeptText(c: Condition, isSingle: bool)
    requires Supported(c.body) && NodeWords(c.body)
    ensures ClauseText(c, isSingle) == LevelText(KeptLevel(c, isSingle))
    ensures Spell(ClauseText(c, isSingle), true) == SpellLevel(KeptLevel(c, isSingle), true)
    ensures Spelt(KeptLevel(c, isSingle), false) && Spelt(KeptLevel(c, isSingle), true)
  {
    var v: Valuation := a => true;
    MapNodeMeaning(c.body, !isSingle, v);
    MapKeepsWords(c.body, !isSingle);
    var e := MapCedarNode(c.body, !isSingle).expr;
    var x := if c.isUnless && !isSingle then Not(e) else e;
    PrintMeaning(x, v);
    PrintSpelt(x);
    WeakenLevel(PrintLevel(x));
    SpellLevelText(PrintLevel(x), true);
  }

  lemma LostText(c: Condition, isSingle: bool)
    requires !Supported(c.body)
    ensures ClauseText(c, isSingle) == []
  {
    var v: Valuation := a => true;
    MapNodeMeaning(c.body, !isSingle, v);
  }

  // ----- several clauses

  function Kept(cs: seq<Condition>): seq<Condition> {
    if cs == [] then [] else (if Supported(cs[0].body) then [cs[0]] else []) + Kept(cs[1..])
  }

  /** The text of the clauses after the first, each behind its `and`. */
  function Tail(cs: seq<Condition>): seq<LTok> {
    if cs == [] then [] else [TAnd] + (ClauseText(cs[0], false) + Tail(cs[1..]))
  }

  function SpellTail(cs: seq<Condition>): seq<Tok> {
    if cs == [] then []
    else SpellTok(TAnd, true) + (Spell(ClauseText(cs[0], false), true) + SpellTail(cs[1..]))
  }

  lemma {:induction false} TailSnoc(cs: seq<Condition>, c: Condition)
    ensures Tail(cs + [c]) == Tail(cs) + [TAnd] + ClauseText(c, false)
  {
    if cs == [] {
      assert [c][1..] == [];
      assert ClauseText(c, false) + [] == ClauseText(c, false);
    } else {
      SnocCons(cs, c);
      TailSnoc(cs[1..], c);
      Regrouped([TAnd], ClauseText(cs[0], false), Tail(cs[1..]), ClauseText(c, false));
    }
  }

  lemma Regrouped(a: seq<LTok>, b: seq<LTok>, c: seq<LTok>, d: seq<LTok>)
    ensures a + (b + (c + a + d)) == a + (b + c) + a + d
  {}

  lemma Regroup(a: seq<LTok>, b: seq<LTok>, c: seq<LTok>, d: seq<LTok>)
    ensures (a + b) + c + d == a + (b + c + d)
  {}

  lemma {:induction false} MergeCons(c: Condition, cs: seq<Condition>)
    ensures Merge([c] + cs) == ClauseText(c, false) + Tail(cs)
  {
    var t := ClauseText(c, false);
    if cs == [] {
      MergeSnoc([], c);
      assert [] + [c] == [c] + cs && t + [] == t;
    } else {
      var init, last := cs[..|cs| - 1], cs[|cs| - 1];
      MergeCons(c, init);
      MergeSnoc([c] + init, last);
      ConsSnoc(c, cs);
      TailSnoc(init, last);
      Regroup(t, Tail(init), [TAnd], ClauseText(last, false));
    }
  }

  lemma MergeTail(cs: seq<Condition>)
    requires cs != []
    ensures Merge(cs) == ClauseText(cs[0], false) + Tail(cs[1..])
  {
    assert cs == [cs[0]] + cs[1..];
    MergeCons(cs[0], cs[1..]);
  }

  lemma {:induction false} SpellTailText(cs: seq<Condition>)
    ensures Spell(Tail(cs), true) == SpellTail(cs)
  {
    if cs == [] {
    } else {
      SpellOne(TAnd, true);
      SpellCat([TAnd], ClauseText(cs[0], false) + Tail(cs[1..]), true);
      SpellCat(ClauseText(cs[0], false), Tail(cs[1..]), true);
      SpellTailText(cs[1..]);
    }
  }

  // ----- ParseFilter over text with clauses missing

  /** States between two clauses that differ in the operator seen last, if any. */
  predicate Alike(s1: State, s2: State) {
    Ready(s1) && Ready(s2) && s1.clauses == s2.clauses && |s1.clauses| <= 1 && s1.isNot == s2.isNot
  }

  lemma TailBlank(cs: seq<Condition>)
    ensures SpellTail(cs) == [] || SpellTail(cs)[0] == Sp
    ensures SpellTail(cs) == [] <==> cs == []
  {}

  /** The next `and` makes them one. */
  lemma AlikeTail(cs: seq<Condition>, s1: State, s2: State)
    requires Alike(s1, s2)
    ensures Run(SpellTail(cs), s1) == Run(SpellTail(cs), s2)
  {
    TailBlank(cs);
    RunBlank(SpellTail(cs), s1);
    RunBlank(SpellTail(cs), s2);
    if cs != [] {
      var k := Spell(ClauseText(cs[0], false), true) + SpellTail(cs[1..]);
      RunLogic(And, true, k, s1);
      RunLogic(And, true, k, s2);
      assert LogicSeen(s1, And) == LogicSeen(s2, And);
    }
  }

  /** A clause that is there, with the same `k` after it, from states that are alike. */
  lemma AlikeClause(lv: Level, cs: seq<Condition>, s1: State, s2: State)
    requires Awaits(s1) && Awaits(s2) && Alike(s1, s2) && s1.clauses == [] && Spelt(lv, false) && Spelt(lv, true)
    ensures Run(SpellLevel(lv, true) + SpellTail(cs), s1) == Run(SpellLevel(lv, true) + SpellTail(cs), s2)
  {
    var k := SpellTail(cs);
    TailBlank(cs);
    if HasIs(lv) {
      RefuseLevel(lv, true, k, s1);
      RefuseLevel(lv, true, k, s2);
    } else {
      SpeltWf(lv, k == []);
      var t1 := RunLevel(lv, true, k, s1);
      var t2 := RunLevel(lv, true, k, s2);
      RunBlank(k, t1);
      RunBlank(k, t2);
      AlikeTail(cs, t1, t2);
    }
  }

  lemma KeepsWords(cs: seq<Condition>)
    requires cs != [] && ClauseWords(cs)
    ensures ClauseWords(cs[1..])
  {
    forall i | 0 <= i < |cs[1..]| ensures NodeWords(cs[1..][i].body) {
      assert cs[1..][i] == cs[i + 1];
    }
  }

  /** A clause that is there, followed by clauses some of which are lost. */
  lemma {:induction false} DropAfter(lv: Level, cs: seq<Condition>, st: State)
    requires Awaits(st) && ClauseWords(cs) && Spelt(lv, false) && Spelt(lv, true)
    ensures Run(SpellLevel(lv, true) + SpellTail(cs), st) == Run(SpellLevel(lv, true) + SpellTail(Kept(cs)), st)
    decreases |cs|, 1
  {
    var k, k' := SpellTail(cs), SpellTail(Kept(cs));
    TailBlank(cs);
    TailBlank(Kept(cs));
    if HasIs(lv) {
      RefuseLevel(lv, true, k, st);
      RefuseLevel(lv, true, k', st);
    } else {
      SpeltWf(lv, true);
      SpeltWf(lv, false);
      var t1 := RunLevel(lv, true, k, st);
      var t2 := RunLevel(lv, true, k', st);
      RunBlank(k, t1);
      RunBlank(k', t2);
      DropTail(cs, t1);
      AlikeTail(Kept(cs), t1, t2);
    }
  }

  /** The clauses after the first: those that are lost might as well not be there. */
  lemma {:induction false} DropTail(cs: seq<Condition>, st: State)
    requires Ready(st) && |st.clauses| <= 1 && ClauseWords(cs)
    ensures Run(SpellTail(cs), st) == Run(SpellTail(Kept(cs)), st)
    decreases |cs|, 0
  {
    if cs == [] {
    } else {
      var c, rest := cs[0], cs[1..];
      KeepsWords(cs);
      TailBlank(cs);
      RunBlank(SpellTail(cs), st);
      RunLogic(And, true, Spell(ClauseText(c, false), true) + SpellTail(rest), st);
      if Supported(c.body) {
        KeptText(c, false);
        DropAfter(KeptLevel(c, false), rest, LogicSeen(st, And));
        var ks := [c] + Kept(rest);
        assert ks[1..] == Kept(rest);
        TailBlank(ks);
        RunBlank(SpellTail(ks), st);
        RunLogic(And, true, Spell(ClauseText(c, false), true) + SpellTail(Kept(rest)), st);
      } else {
        LostText(c, false);
        assert [] + SpellTail(rest) == SpellTail(rest);
        DropTail(rest, LogicSeen(st, And));
        AlikeTail(Kept(rest), LogicSeen(st, And), st);
        assert [] + Kept(rest) == Kept(rest);
      }
    }
  }

  lemma MergeTokens(cs: seq<Condition>)
    requires cs != []
    ensures Spell(Merge(cs), true) == Spell(ClauseText(cs[0], false), true) + SpellTail(cs[1..])
  {
    MergeTail(cs);
    SpellCat(ClauseText(cs[0], false), Tail(cs[1..]), true);
    SpellTailText(cs[1..]);
  }

  /** ParseFilter reads the merged text as if the lost clauses had never been there. */
  lemma LostUnseen(cs: seq<Condition>)
    requires cs != [] && ClauseWords(cs)
    ensures ParseTokens(Spell(Merge(cs), true))
         == if Kept(cs) == [] then Err(MissingLogic) else ParseTokens(Spell(Merge(Kept(cs)), true))
  {
    var c, rest := cs[0], cs[1..];
    var ks := Kept(rest);
    KeepsWords(cs);
    MergeTokens(cs);
    if Supported(c.body) {
      KeptText(c, false);
      DropAfter(KeptLevel(c, false), rest, START);
      MergeTokens([c] + ks);
      assert ([c] + ks)[1..] == ks;
    } else {
      LostText(c, false);
      assert [] + SpellTail(rest) == SpellTail(rest) && [] + ks == ks;
      DropTail(rest, START);
      if ks != [] {
        FirstKept(rest);
        MergeTokens(ks);
        TailBlank(ks);
        RunBlank(SpellTail(ks), START);
        KeptText(ks[0], false);
        var lv := KeptLevel(ks[0], false);
        RunLogic(And, true, SpellLevel(lv, true) + SpellTail(ks[1..]), START);
        AlikeClause(lv, ks[1..], LogicSeen(START, And), START);
      }
    }
  }

  lemma {:induction false} FirstKept(cs: seq<Condition>)
    requires Kept(cs) != [] && ClauseWords(cs)
    ensures Supported(Kept(cs)[0].body) && NodeWords(Kept(cs)[0].body)
  {
    if Supported(cs[0].body) {
    } else {
      KeepsWords(cs);
      FirstKept(cs[1..]);
    }
  }

  // ----- the level of the whole rule

  function Joined(cs: seq<Condition>): Level
    requires cs != [] && AllSupported(cs)
  {
    if |cs| == 1 then KeptLevel(cs[0], false)
    else JoinLevels(KeptLevel(cs[0], false), And, Joined(cs[1..]))
  }

  lemma {:induction false} JoinedText(cs: seq<Condition>)
    requires cs != [] && AllSupported(cs) && ClauseWords(cs)
    ensures Merge(cs) == LevelText(Joined(cs))
  {
    KeptText(cs[0], false);
    MergeTail(cs);
    var lv := KeptLevel(cs[0], false);
    if |cs| == 1 {
      assert LevelText(lv) + [] == LevelText(lv);
    } else {
      var rest := cs[1..];
      KeepsWords(cs);
      JoinedText(rest);
      MergeTail(rest);
      calc {
        Merge(cs);
        LevelText(lv) + Tail(rest);
        LevelText(lv) + ([TAnd] + Merge(rest));
        { assert LevelText(lv) + ([TAnd] + Merge(rest)) == LevelText(lv) + [TAnd] + Merge(rest); }
        LevelText(lv) + [TAnd] + LevelText(Joined(rest));
        { JoinText(lv, And, Joined(rest)); }
        LevelText(Joined(cs));
      }
    }
  }

  lemma {:induction false} JoinedSpelt(cs: seq<Condition>)
    requires cs != [] && AllSupported(cs) && ClauseWords(cs)
    ensures Spelt(Joined(cs), false) && Spelt(Joined(cs), true)
  {
    KeptText(cs[0], false);
    var lv := KeptLevel(cs[0], false);
    if |cs| == 1 {
    } else {
      KeepsWords(cs);
      JoinedSpelt(cs[1..]);
      SpeltJoin(lv.rest, And, Joined(cs[1..]));
      WeakenLevel(Joined(cs));
    }
  }

  /** The rule, as a level, when every clause is supported. */
  function RuleLevel(cs: seq<Condition>): Level
    requires cs != [] && AllSupported(cs)
  {
    if |cs| == 1 then KeptLevel(cs[0], true) else Joined(cs)
  }

  lemma RuleText(cs: seq<Condition>)
    requires cs != [] && AllSupported(cs) && ClauseWords(cs)
    ensures MapConditions(cs).Mapped? && MapConditions(cs).rule == LevelText(RuleLevel(cs))
    ensures Spelt(RuleLevel(cs), true)
  {
    MapTaken(cs, a => true);
    if |cs| == 1 {
      KeptText(cs[0], true);
    } else {
      JoinedText(cs);
      JoinedSpelt(cs);
    }
  }

  lemma {:induction false} KeptSupported(cs: seq<Condition>)
    requires ClauseWords(cs)
    ensures AllSupported(Kept(cs)) && ClauseWords(Kept(cs))
    ensures AllSupported(cs) ==> Kept(cs) == cs
  {
    if cs == [] {
    } else {
      KeepsWords(cs);
      KeptSupported(cs[1..]);
      if AllSupported(cs) {
        assert AllSupported(cs[1..]) by {
          forall i | 0 <= i < |cs[1..]| ensures Supported(cs[1..][i].body) {
            assert cs[1..][i] == cs[i + 1];
          }
        }
        assert [cs[0]] + cs[1..] == cs;
      }
    }
  }

  /** The rule as ParseFilter reads it. */
  function ReadBack(r: Mapped): Parse
    requires r.Mapped?
  {
    ParseTokens(Spell(r.rule, true))
  }

  /** Main result: ParseFilter's reading of the rule, whatever was lost. It is the fold of the kept
      clauses alone; it is refused exactly when no clause is kept or a kept one holds an `is`. */
  lemma ReadBackExactly(cs: seq<Condition>)
    requires |cs| > 1 && ClauseWords(cs) && MapConditions(cs).Mapped?
    ensures AllSupported(Kept(cs))
    ensures Kept(cs) == [] ==> ReadBack(MapConditions(cs)) == Err(MissingLogic)
    ensures Kept(cs) != [] ==>
      ReadBack(MapConditions(cs)) == if HasIs(Joined(Kept(cs))) then REFUSAL else Ok(FoldLevel(Joined(Kept(cs))))
  {
    LostUnseen(cs);
    KeptSupported(cs);
    var ks := Kept(cs);
    if ks != [] {
      JoinedText(ks);
      JoinedSpelt(ks);
      AcceptsExactly(Joined(ks), true);
    }
  }

  /** The same for a single clause. */
  lemma SingleReadBack(c: Condition)
    requires NodeWords(c.body)
    ensures MapConditions([c]) == Panics <==> Crashes(c.body)
    ensures !Supported(c.body) && !Crashes(c.body) ==>
      MapConditions([c]).Mapped? && ReadBack(MapConditions([c])) == Err(MissingLogic)
    ensures Supported(c.body) ==>
      MapConditions([c]).Mapped? && ReadBack(MapConditions([c]))
        == if HasIs(KeptLevel(c, true)) then REFUSAL else Ok(FoldLevel(KeptLevel(c, true)))
  {
    NoticedIsLoss(c.body);
    if Supported(c.body) {
      KeptText(c, true);
      AcceptsExactly(KeptLevel(c, true), true);
    } else {
      LostText(c, true);
    }
  }

  // ----- meaning

  /** Read by ParseFilter, the rule under its action means what the policy asks for. */
  predicate Faithfully(cs: seq<Condition>, w: World) {
    var r := MapConditions(cs);
    r.Mapped? && ReadBack(r).Ok? && (Eval(ReadBack(r).value, Seen(w)) != r.deny) == Intended(cs, w)
  }

  /** A world in which the comparisons are as `v` has them. */
  function WorldOf(v: Valuation): World {
    (f: Fact) => v(AtomOf(f))
  }

  lemma RuleReads(cs: seq<Condition>)
    requires cs != [] && AllSupported(cs) && ClauseWords(cs)
    ensures MapConditions(cs).Mapped?
    ensures ReadBack(MapConditions(cs)) == if HasIs(RuleLevel(cs)) then REFUSAL else Ok(FoldLevel(RuleLevel(cs)))
  {
    RuleText(cs);
    AcceptsExactly(RuleLevel(cs), true);
  }

  /** The rule read by ParseFilter means the policy exactly where it reads the text as RFC 7644 does. */
  lemma ReadsAlikeFaithfully(cs: seq<Condition>, w: World)
    requires cs != [] && AllExpressible(cs) && AllSupported(cs) && ClauseWords(cs) && !HasIs(RuleLevel(cs))
    ensures Faithfully(cs, w) <==> ReadsAlike(RuleLevel(cs), true, Seen(w))
  {
    var lv := RuleLevel(cs);
    RuleText(cs);
    RuleReads(cs);
    SpeltWf(lv, true);
    ParseIsLeftFold(lv, true);
    AllExpressibleMeaning(cs, w);
    MapTaken(cs, Seen(w));
    LevelMeaning(lv, Seen(w));
  }

  /** Main result, for a policy that asks for no fact twice and a rule in which no comparison occurs
      twice: the repository's own parser gives the rule the policy's meaning in every world exactly
      when nothing is beyond IDQL, no comparison is an `is`, and the rule's text has status Same. */
  lemma FaithfulExact(cs: seq<Condition>)
    requires cs != [] && ClauseWords(cs) && NodeOnce(Joint(cs))
    requires AllSupported(cs) ==> LevelOnce(RuleLevel(cs))
    ensures (forall w :: Faithfully(cs, w)) <==>
      && AllExpressible(cs)
      && AllSupported(cs) && !HasIs(RuleLevel(cs)) && LevelStatus(RuleLevel(cs)) == Same
  {
    if !AllExpressible(cs) {
      var w, u := PolicyLoses(cs);
      if Faithfully(cs, w) {
        SeenSame(ReadBack(MapConditions(cs)).value, w, u);
        assert !Faithfully(cs, u);
      }
    } else {
      var w: World := f => true;
      AllExpressibleMeaning(cs, w);
      RuleReads(cs);
      if HasIs(RuleLevel(cs)) {
        assert !Faithfully(cs, w);
      } else {
        ExpressibleFaithful(cs);
      }
    }
  }

  lemma ExpressibleFaithful(cs: seq<Condition>)
    requires cs != [] && AllExpressible(cs) && AllSupported(cs) && ClauseWords(cs)
    requires !HasIs(RuleLevel(cs)) && LevelOnce(RuleLevel(cs))
    ensures (forall w :: Faithfully(cs, w)) <==> LevelStatus(RuleLevel(cs)) == Same
  {
    var lv := RuleLevel(cs);
    RuleText(cs);
    SpeltWf(lv, true);
    AgreementExact(lv, true);
    forall w ensures Faithfully(cs, w) <==> ReadsAlike(lv, true, Seen(w)) {
      ReadsAlikeFaithfully(cs, w);
    }
    if LevelStatus(lv) == Same {
      forall w ensures Faithfully(cs, w) {
        assert ReadsAlike(lv, true, Seen(w));
      }
    } else {
      var v :| !ReadsAlike(lv, true, v);
      SeenWorld(lv, v);
      assert !Faithfully(cs, WorldOf(v));
    }
  }

  lemma SeenWorld(lv: Level, v: Valuation)
    ensures ReadsAlike(lv, true, Seen(WorldOf(v))) == ReadsAlike(lv, true, v)
  {
    var u := Seen(WorldOf(v));
    forall a ensures u(a) == v(a) {
      assert AtomOf(FactOf(a)) == a;
    }
    LevelMeaning(lv, v);
    LevelMeaning(lv, u);
    UnitLocal(lv.first, u, v, LevelAtoms(lv));
    RestLocal(lv.rest, u, v, LevelAtoms(lv));
    if ParseTokens(Spell(LevelText(lv), true)).Ok? {
      EvalLocal(ParseTokens(Spell(LevelText(lv), true)).value, u, v);
    }
  }

  /** An unsupported clause followed by a supported one: no error, and ParseFilter accepts what is
      left of the rule. */
  lemma LostClauseAccepted(path: string, value: string)
    requires AtomWords(Atom(ParseValue(path), EQ, ParseValue(value)))
    ensures var cs := [Condition(false, NOther), Condition(false, NRelation(EQ, OVar(path), OVar(value)))];
      && !AllExpressible(cs) && !Reported(MapConditions(cs)) && MapConditions(cs).Mapped?
      && ReadBack(MapConditions(cs)) == Ok(Attr(Atom(ParseValue(path), EQ, ParseValue(value))))
  {
    var lost, kept := Condition(false, NOther), Condition(false, NRelation(EQ, OVar(path), OVar(value)));
    var cs, a := [lost, kept], Atom(ParseValue(path), EQ, ParseValue(value));
    EarlierErrorIsLost(path, value);
    assert !Expressible(cs[0].body);
    assert cs[1..] == [kept] && [kept][1..] == [];
    assert Kept([kept]) == [kept] + Kept([]);
    assert Kept(cs) == [kept];
    assert MapLeaf(kept.body) == Tree(Attr(a));
    ReadBackExactly(cs);
    assert Joined([kept]) == Single(UAtom(a));
  }
}
