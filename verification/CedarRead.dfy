/** Cedar to IDQL: `when`/`unless` clauses become one IDQL rule with an action. */
module CedarRead {
  import opened Collections
  import opened Idql
  import opened Surface
  import opened ParserRetract
  import opened CedarNode
  import opened CedarWord

  datatype Condition = Condition(isUnless: bool, body: Node)

  /** `failed` is the error returned beside the rule. */
  datatype Mapped = NoCondition | Mapped(rule: seq<LTok>, deny: bool, failed: bool) | Panics

  /** The mapper returns a tree for the node. */
  predicate Supported(n: Node) {
    match n
    case NAnd(l, r) => Supported(l) && Supported(r)
    case NOr(l, r) => Supported(l) && Supported(r)
    case NNot(x) => Supported(x)
    case _ => MapLeaf(n).Tree?
  }

  /** It panics on a pattern, and nothing to the left of it was refused. */
  predicate Crashes(n: Node) {
    match n
    case NAnd(l, r) => Crashes(l) || (Supported(l) && Crashes(r))
    case NOr(l, r) => Crashes(l) || (Supported(l) && Crashes(r))
    case NNot(x) => Crashes(x)
    case _ => MapLeaf(n).Crashed?
  }

  /** The meaning of what the node becomes. */
  predicate TakenEval(n: Node, v: Valuation)
    requires Supported(n)
  {
    match n
    case NAnd(l, r) => TakenEval(l, v) && TakenEval(r, v)
    case NOr(l, r) => TakenEval(l, v) || TakenEval(r, v)
    case NNot(x) => !TakenEval(x, v)
    case _ => Eval(MapLeaf(n).expr, v)
  }

  // ----- nodes

  function MapCedarNode(n: Node, isNested: bool): (r: Outcome)
    ensures r.Tree? <==> Supported(n)
    ensures r.Crashed? <==> Crashes(n)
  {
    match n
    case NAnd(l, r) =>
      (match MapCedarNode(l, true)
       case Tree(x) =>
         (match MapCedarNode(r, true)
          case Tree(y) => Tree(Logic(And, x, y))
          case failure => failure)
       case failure => failure)
    case NOr(l, r) =>
      (match MapCedarNode(l, isNested)
       case Tree(x) =>
         (match MapCedarNode(r, isNested)
          case Tree(y) => Tree(if isNested then Prec(Logic(Or, x, y)) else Logic(Or, x, y))
          case failure => failure)
       case failure => failure)
    case NNot(x) =>
      (match MapCedarNode(x, isNested)
       case Tree(y) => Tree(Not(y))
       case failure => failure)
    case _ => MapLeaf(n)
  }

  /** What is expressible is mapped, to what it means. */
  lemma {:induction false} ExpressibleMeaning(n: Node, w: World)
    requires Expressible(n)
    ensures Supported(n) && TakenEval(n, Seen(w)) == CedarEval(n, w)
  {
    match n
    case NAnd(l, r) => ExpressibleMeaning(l, w); ExpressibleMeaning(r, w);
    case NOr(l, r) => ExpressibleMeaning(l, w); ExpressibleMeaning(r, w);
    case NNot(x) => ExpressibleMeaning(x, w);
    case _ => LeafMeaning(n, w);
  }

  /** No bare `or` directly under an `and`: String() needs no brackets it does not write. */
  predicate OrBracketed(e: Expr) {
    match e
    case Attr(_) => true
    case Not(x) => OrBracketed(x)
    case Prec(x) => OrBracketed(x)
    case Logic(op, l, r) => OrBracketed(l) && OrBracketed(r) && (op == And ==> !IsOr(l) && !IsOr(r))
  }

  lemma {:induction false} MapNodeMeaning(n: Node, isNested: bool, v: Valuation)
    ensures Supported(n) ==>
      var e := MapCedarNode(n, isNested).expr;
      OrBracketed(e) && (isNested ==> !IsOr(e)) && Eval(e, v) == TakenEval(n, v)
  {
    match n
    case NAnd(l, r) => MapNodeMeaning(l, true, v); MapNodeMeaning(r, true, v);
    case NOr(l, r) => MapNodeMeaning(l, isNested, v); MapNodeMeaning(r, isNested, v);
    case NNot(x) => MapNodeMeaning(x, isNested, v);
    case _ =>
  }

  /** The level String() writes. */
  function PrintLevel(e: Expr): Level {
    match e
    case Attr(a) => Single(UAtom(a))
    case Not(x) => Single(UNot(UGroup(PrintLevel(x))))
    case Prec(x) => Single(UGroup(PrintLevel(x)))
    case Logic(op, l, r) => JoinLevels(PrintLevel(l), op, PrintLevel(r))
  }

  lemma {:induction false} PrintMeaning(e: Expr, v: Valuation)
    requires OrBracketed(e)
    ensures PrintText(e) == LevelText(PrintLevel(e))
    ensures PrecEval(PrintLevel(e), v) == Eval(e, v)
    ensures !IsOr(e) ==> OneTerm(PrintLevel(e))
  {
    match e
    case Attr(_) =>
    case Not(x) =>
      PrintMeaning(x, v);
      assert UnitText(UGroup(PrintLevel(x))) == [TOpen] + PrintText(x) + [TClose];
      assert UnitEval(UGroup(PrintLevel(x)), v) == PrecEval(PrintLevel(x), v);
    case Prec(x) => PrintMeaning(x, v);
    case Logic(op, l, r) =>
      PrintMeaning(l, v);
      PrintMeaning(r, v);
      JoinText(PrintLevel(l), op, PrintLevel(r));
      JoinEval(PrintLevel(l), op, PrintLevel(r), v);
  }

  // ----- clauses

  /** The text of a clause; empty when the node is refused. */
  function ClauseText(c: Condition, isSingle: bool): seq<LTok> {
    match MapCedarNode(c.body, !isSingle)
    case Tree(e) => PrintText(if c.isUnless && !isSingle then Not(e) else e)
    case _ => []
  }

  /** A refused body under one of several `unless` clauses is printed all the same. */
  predicate ClausePanics(c: Condition) {
    Crashes(c.body) || (c.isUnless && !Supported(c.body))
  }

  function Merge(cs: seq<Condition>): seq<LTok>
    requires cs != []
  {
    var last := cs[|cs| - 1];
    if |cs| == 1 then ClauseText(last, false)
    else Merge(cs[..|cs| - 1]) + [TAnd] + ClauseText(last, false)
  }

  function MapConditions(cs: seq<Condition>): Mapped {
    if cs == [] then NoCondition
    else if |cs| == 1 then
      if Crashes(cs[0].body) then Panics
      else Mapped(ClauseText(cs[0], true), cs[0].isUnless, !Supported(cs[0].body))
    else if exists i :: 0 <= i < |cs| && ClausePanics(cs[i]) then Panics
    else Mapped(Merge(cs), false, !Supported(cs[|cs| - 1].body))
  }

  lemma MergeSnoc(init: seq<Condition>, c: Condition)
    ensures Merge(init + [c]) ==
      if init == [] then ClauseText(c, false) else Merge(init) + [TAnd] + ClauseText(c, false)
  {
    assert (init + [c])[..|init|] == init;
  }

  /** How many brackets are written: one for each `or` that is not the clause's outermost part, and
      one for each `!`. */
  function NodeBrackets(n: Node, isNested: bool): nat {
    match n
    case NAnd(l, r) => NodeBrackets(l, true) + NodeBrackets(r, true)
    case NOr(l, r) => NodeBrackets(l, isNested) + NodeBrackets(r, isNested) + One(isNested)
    case NNot(x) => 1 + NodeBrackets(x, isNested)
    case _ => 0
  }

  lemma {:induction false} LevelBrackets(n: Node, isNested: bool)
    requires Supported(n)
    ensures Groups(PrintLevel(MapCedarNode(n, isNested).expr)) == NodeBrackets(n, isNested)
    decreases n
  {
    match n
    case NAnd(l, r) =>
      LevelBrackets(l, true);
      LevelBrackets(r, true);
      var x, y := MapCedarNode(l, true).expr, MapCedarNode(r, true).expr;
      JoinGroups(PrintLevel(x), And, PrintLevel(y));
    case NOr(l, r) =>
      LevelBrackets(l, isNested);
      LevelBrackets(r, isNested);
      var x, y := MapCedarNode(l, isNested).expr, MapCedarNode(r, isNested).expr;
      JoinGroups(PrintLevel(x), Or, PrintLevel(y));
      GroupCounts(PrintLevel(Logic(Or, x, y)));
    case NNot(x) =>
      LevelBrackets(x, isNested);
      GroupCounts(PrintLevel(MapCedarNode(x, isNested).expr));
    case _ => LeafBrackets(n);
  }

  lemma GroupCounts(lv: Level)
    ensures Groups(Single(UGroup(lv))) == Groups(Single(UNot(UGroup(lv)))) == 1 + Groups(lv)
  {
    assert UnitGroups(UGroup(lv)) == 1 + Groups(lv);
  }

  lemma LeafBrackets(n: Node)
    requires IsLeaf(n) && Supported(n)
    ensures Groups(PrintLevel(MapLeaf(n).expr)) == 0
  {
    var e := MapLeaf(n).expr;
    if e.Logic? {
      JoinGroups(PrintLevel(e.left), e.op, PrintLevel(e.right));
    }
  }

  /** And no more than those. */
  lemma BracketsExactly(n: Node, isNested: bool)
    requires Supported(n)
    ensures Opens(PrintText(MapCedarNode(n, isNested).expr)) == NodeBrackets(n, isNested)
  {
    var e := MapCedarNode(n, isNested).expr;
    MapNodeMeaning(n, isNested, a => false);
    PrintMeaning(e, a => false);
    LevelOpens(PrintLevel(e));
    LevelBrackets(n, isNested);
  }

  /** One clause: its text, whether its body is refused, and whether printing it panics. */
  method MapConditionClause(c: Condition, isSingle: bool) returns (clause: seq<LTok>, failed: bool, panics: bool)
    ensures clause == ClauseText(c, isSingle)
    ensures failed <==> !Supported(c.body)
    ensures panics <==> if isSingle then Crashes(c.body) else ClausePanics(c)
  {
    var node := MapCedarNode(c.body, !isSingle);
    clause := [];
    failed := !node.Tree?;
    panics := node.Crashed? || (node.Refused? && c.isUnless && !isSingle);
    if node.Tree? {
      clause := PrintText(if c.isUnless && !isSingle then Not(node.expr) else node.expr);
    }
  }

  /** The source's loop: `merge` grows clause by clause, `failed` keeps the last clause's error only. */
  method MergeClauses(cs: seq<Condition>) returns (merge: seq<LTok>, failed: bool, panics: bool)
    requires cs != []
    ensures panics <==> exists i :: 0 <= i < |cs| && ClausePanics(cs[i])
    ensures !panics ==> merge == Merge(cs) && failed == !Supported(cs[|cs| - 1].body)
  {
    merge, failed, panics := [], false, false;
    for i := 0 to |cs|
      invariant i > 0 ==> merge == Merge(cs[..i]) && failed == !Supported(cs[i - 1].body)
      invariant forall j :: 0 <= j < i ==> !ClausePanics(cs[j])
      invariant !panics
    {
      var clause;
      clause, failed, panics := MapConditionClause(cs[i], false);
      if panics {
        return;
      }
      MergeSnoc(cs[..i], cs[i]);
      Around(cs, i);
      merge := if i == 0 then clause else merge + [TAnd] + clause;
    }
    assert cs[..|cs|] == cs;
  }

  /** Both cases of the switch. */
  method MapCedarConditionToHexa(cs: seq<Condition>) returns (r: Mapped)
    ensures r == MapConditions(cs)
  {
    if |cs| == 0 {
      return NoCondition;
    }
    if |cs| == 1 {
      var rule, err, panics := MapConditionClause(cs[0], true);
      if panics {
        return Panics;
      }
      return Mapped(rule, cs[0].isUnless, err);
    }
    var merge, failed, panics := MergeClauses(cs);
    return if panics then Panics else Mapped(merge, false, failed);
  }

  // ----- meaning

  predicate AllSupported(cs: seq<Condition>) {
    forall i :: 0 <= i < |cs| ==> Supported(cs[i].body)
  }

  /** What the clauses, as the mapper takes them, ask for. */
  predicate Became(cs: seq<Condition>, v: Valuation)
    requires AllSupported(cs)
  {
    forall i :: 0 <= i < |cs| ==> TakenEval(cs[i].body, v) != cs[i].isUnless
  }

  predicate AllExpressible(cs: seq<Condition>) {
    forall i :: 0 <= i < |cs| ==> Expressible(cs[i].body)
  }

  /** What the Cedar policy asks for. */
  predicate Intended(cs: seq<Condition>, w: World) {
    forall i :: 0 <= i < |cs| ==> CedarEval(cs[i].body, w) != cs[i].isUnless
  }

  lemma AllExpressibleMeaning(cs: seq<Condition>, w: World)
    requires AllExpressible(cs)
    ensures AllSupported(cs) && Became(cs, Seen(w)) == Intended(cs, w)
  {
    forall i | 0 <= i < |cs|
      ensures Supported(cs[i].body) && TakenEval(cs[i].body, Seen(w)) == CedarEval(cs[i].body, w)
    {
      ExpressibleMeaning(cs[i].body, w);
    }
  }

  lemma ClauseMeaning(c: Condition, isSingle: bool, v: Valuation) returns (lv: Level)
    requires Supported(c.body)
    ensures ClauseText(c, isSingle) == LevelText(lv)
    ensures PrecEval(lv, v) == (TakenEval(c.body, v) != (c.isUnless && !isSingle))
    ensures !isSingle ==> OneTerm(lv)
  {
    MapNodeMeaning(c.body, !isSingle, v);
    var e := MapCedarNode(c.body, !isSingle).expr;
    var x := if c.isUnless && !isSingle then Not(e) else e;
    PrintMeaning(x, v);
    lv := PrintLevel(x);
  }

  lemma {:induction false} MergeMeaning(cs: seq<Condition>, v: Valuation) returns (lv: Level)
    requires cs != [] && AllSupported(cs)
    ensures Merge(cs) == LevelText(lv) && OneTerm(lv) && PrecEval(lv, v) == Became(cs, v)
  {
    var init, last := cs[..|cs| - 1], cs[|cs| - 1];
    var l := ClauseMeaning(last, false, v);
    if |cs| == 1 {
      lv := l;
    } else {
      var p := MergeMeaning(init, v);
      lv := JoinLevels(p, And, l);
      JoinText(p, And, l);
      JoinEval(p, And, l, v);
      assert forall i :: 0 <= i < |init| ==> cs[i] == init[i];
    }
  }

  /** When every node is taken, the rule under its action means what the clauses have become. */
  lemma MapTaken(cs: seq<Condition>, v: Valuation)
    requires cs != [] && AllSupported(cs)
    ensures var r := MapConditions(cs);
      && r.Mapped? && !r.failed
      && TextMeaning(r.rule, v).Some?
      && (TextMeaning(r.rule, v).value != r.deny) == Became(cs, v)
  {
    forall i | 0 <= i < |cs| ensures !Crashes(cs[i].body) {
      assert MapCedarNode(cs[i].body, true).Tree?;
    }
    if |cs| == 1 {
      var lv := ClauseMeaning(cs[0], true, v);
      LevelMeaning(lv, v);
    } else {
      var lv := MergeMeaning(cs, v);
      LevelMeaning(lv, v);
    }
  }

  /** The rule is there, and under its action it means what the policy asks for. */
  predicate RuleMeans(cs: seq<Condition>, w: World) {
    var r := MapConditions(cs);
    && r.Mapped?
    && TextMeaning(r.rule, Seen(w)).Some?
    && (TextMeaning(r.rule, Seen(w)).value != r.deny) == Intended(cs, w)
  }

  /** When everything is expressible the rule means what the clauses together mean. */
  lemma MapMeaning(cs: seq<Condition>, w: World)
    requires cs != [] && AllExpressible(cs)
    ensures RuleMeans(cs, w)
  {
    AllExpressibleMeaning(cs, w);
    MapTaken(cs, Seen(w));
  }

  /** The clauses as one node. */
  function Joint(cs: seq<Condition>): Node
    requires cs != []
  {
    var last := cs[|cs| - 1];
    var n := if last.isUnless then NNot(last.body) else last.body;
    if |cs| == 1 then n else NAnd(Joint(cs[..|cs| - 1]), n)
  }

  lemma {:induction false} JointMeaning(cs: seq<Condition>, w: World)
    requires cs != []
    ensures CedarEval(Joint(cs), w) == Intended(cs, w)
    ensures Expressible(Joint(cs)) <==> AllExpressible(cs)
  {
    if |cs| == 1 {
    } else {
      var init := cs[..|cs| - 1];
      JointMeaning(init, w);
      assert forall i :: 0 <= i < |init| ==> cs[i] == init[i];
    }
  }

  /** Two worlds in which the policy differs and every rule is the same. */
  lemma PolicyLoses(cs: seq<Condition>) returns (w: World, u: World)
    requires cs != [] && NodeOnce(Joint(cs)) && !AllExpressible(cs)
    ensures SameSeen(w, u) && Intended(cs, w) != Intended(cs, u)
  {
    JointMeaning(cs, f => true);
    w, u := LostMatters(Joint(cs));
    JointMeaning(cs, w);
    JointMeaning(cs, u);
  }

  lemma {:induction false} SeenSame(e: Expr, w: World, u: World)
    requires SameSeen(w, u)
    ensures Eval(e, Seen(w)) == Eval(e, Seen(u))
  {
    forall a ensures Seen(w)(a) == Seen(u)(a) {
      assert w(FactOf(a)) == u(FactOf(a));
    }
    EvalLocal(e, Seen(w), Seen(u));
  }

  lemma BecameSame(cs: seq<Condition>, w: World, u: World)
    requires AllSupported(cs) && SameSeen(w, u)
    ensures Became(cs, Seen(w)) == Became(cs, Seen(u))
  {
    forall i | 0 <= i < |cs| ensures TakenEval(cs[i].body, Seen(w)) == TakenEval(cs[i].body, Seen(u)) {
      MapNodeMeaning(cs[i].body, true, Seen(w));
      MapNodeMeaning(cs[i].body, true, Seen(u));
      SeenSame(MapCedarNode(cs[i].body, true).expr, w, u);
    }
  }

  // ----- and when some node is not supported

  /** `and` with nothing to read after it. */
  predicate Dangling(k: seq<LTok>) {
    k != [] && k[0] == TAnd && (|k| == 1 || k[1] == TAnd)
  }

  lemma {:induction false} DanglingRest(r: Rest, k: seq<LTok>)
    requires Dangling(k)
    ensures ReadRest(RestText(r) + k) == None
    decreases r
  {
    match r
    case End => assert RestText(r) + k == k;
    case More(op, u, tl) =>
      var ts := RestText(r) + k;
      assert ts[1..] == UnitText(u) + (RestText(tl) + k);
      ReadUnitText(u, RestText(tl) + k);
      DanglingRest(tl, k);
  }

  lemma DanglingLevel(lv: Level, k: seq<LTok>)
    requires Dangling(k)
    ensures ReadText(LevelText(lv) + k) == None
  {
    assert LevelText(lv) + k == UnitText(lv.first) + (RestText(lv.rest) + k);
    ReadUnitText(lv.first, RestText(lv.rest) + k);
    DanglingRest(lv.rest, k);
  }

  /** Up to the first refused clause the merged text is a level; from there on it dangles. */
  lemma {:induction false} MergeStuck(cs: seq<Condition>, v: Valuation)
    requires cs != [] && !AllSupported(cs)
    ensures |cs| > 1 ==> ReadText(Merge(cs)) == None
    ensures Stuck(Merge(cs))
  {
    if |cs| == 1 {
    } else {
      var init, last := cs[..|cs| - 1], cs[|cs| - 1];
      if AllSupported(init) {
        assert !Supported(last.body);
        var p := MergeMeaning(init, v);
        assert Merge(cs) == LevelText(p) + [TAnd];
        assert Dangling([TAnd]);
      } else {
        MergeStuck(init, v);
        StuckLonger(Merge(init), ClauseText(last, false));
      }
      StuckUnread(Merge(cs));
    }
  }

  /** No text at all, or an `and` with nothing to read before it or after it. */
  ghost predicate Stuck(m: seq<LTok>) {
    m == [] || m[0] == TAnd || exists lv: Level, k :: m == LevelText(lv) + k && Dangling(k)
  }

  lemma StuckLonger(m: seq<LTok>, t: seq<LTok>)
    requires Stuck(m)
    ensures Stuck(m + [TAnd] + t)
  {
    if m != [] && m[0] != TAnd {
      var lv: Level, k :| m == LevelText(lv) + k && Dangling(k);
      assert m + [TAnd] + t == LevelText(lv) + (k + [TAnd] + t);
      assert Dangling(k + [TAnd] + t);
    }
  }

  lemma StuckUnread(m: seq<LTok>)
    requires Stuck(m)
    ensures ReadText(m) == None
  {
    if m != [] && m[0] != TAnd {
      var lv: Level, k :| m == LevelText(lv) + k && Dangling(k);
      DanglingLevel(lv, k);
    } else {
      assert ReadUnit(m) == None;
    }
  }

  /** Main result: the mapper returns a readable rule exactly when it takes every node of every
      clause, whatever error it returns beside it. */
  lemma ReadableExactly(cs: seq<Condition>)
    requires cs != []
    ensures (MapConditions(cs).Mapped? && ReadText(MapConditions(cs).rule).Some?) <==> AllSupported(cs)
  {
    var v: Valuation := a => true;
    if AllSupported(cs) {
      MapTaken(cs, v);
    } else if |cs| == 1 {
    } else {
      MergeStuck(cs, v);
    }
  }

  /** Main result, for a policy that asks for no fact twice: the mapper's rule means the policy in
      every world exactly when no operand and no node in it is beyond IDQL. */
  lemma MapMeaningExact(cs: seq<Condition>)
    requires cs != [] && NodeOnce(Joint(cs))
    ensures (forall w :: RuleMeans(cs, w)) <==> AllExpressible(cs)
  {
    if AllExpressible(cs) {
      forall w ensures RuleMeans(cs, w) {
        MapMeaning(cs, w);
      }
    } else {
      var w, u := PolicyLoses(cs);
      if RuleMeans(cs, w) && RuleMeans(cs, u) {
        ReadableExactly(cs);
        MapTaken(cs, Seen(w));
        MapTaken(cs, Seen(u));
        BecameSame(cs, w, u);
        assert false;
      }
    }
  }

  /** The error does not tell: an unsupported first clause followed by a supported one is
      returned without an error and without its meaning. */
  lemma EarlierErrorIsLost(path: string, value: string)
    ensures var cs := [Condition(false, NOther), Condition(false, NRelation(EQ, OVar(path), OVar(value)))];
      MapConditions(cs) == Mapped([TAnd, TAtom(Atom(ParseValue(path), EQ, ParseValue(value)))], false, false)
  {
    var cs := [Condition(false, NOther), Condition(false, NRelation(EQ, OVar(path), OVar(value)))];
    var a := Atom(ParseValue(path), EQ, ParseValue(value));
    assert cs[..1] == [cs[0]];
    assert Merge(cs[..1]) == [];
    assert ClauseText(cs[1], false) == [TAtom(a)];
    assert Merge(cs) == [] + [TAnd] + [TAtom(a)];
  }
}
