/** ConditionInfo.Equals: two rules are compared by the sorted labels of their parse trees. */
module ConditionEquals {
  import opened Collections
  import opened Idql
  import opened Parser
  import opened Strings
  import opened Sorting

  datatype ConditionInfo = ConditionInfo(rule: seq<Tok>, action: string)

  // ----- labels

  function AtomString(a: Atom): string {
    if a.op == PR then a.path + " pr" else a.path + " " + OpWord(a.op) + " " + a.value
  }

  function OpString(op: LogicOp): string {
    match op
    case And => "and"
    case Or => "or"
  }

  function NotLabel(s: string): string {
    "not(" + s + ")"
  }

  /** Dif of a NotExpression. */
  function NotDif(x: Expr): string {
    if x.Attr? then NotLabel(AtomString(x.atom)) else "not"
  }

  /** What compareWalk sends: a negated comparison both as `not(...)` and as itself, brackets
      not at all. */
  function Labels(e: Expr): seq<string> {
    match e
    case Attr(a) => [AtomString(a)]
    case Not(x) => [NotDif(x)] + Labels(x)
    case Prec(x) => Labels(x)
    case Logic(op, l, r) => [OpString(op)] + Labels(l) + Labels(r)
  }

  function FoldAll(s: seq<string>): seq<string> {
    seq(|s|, i requires 0 <= i < |s| => ToLower(s[i]))
  }

  /** The loop that compares two sorted lists, letter case aside. */
  method SlicesAreEqual(a: seq<string>, b: seq<string>) returns (equal: bool)
    ensures equal <==> FoldAll(a) == FoldAll(b)
  {
    if |a| != |b| {
      assert |FoldAll(a)| == |a| && |FoldAll(b)| == |b|;
      return false;
    }
    for i := 0 to |a|
      invariant FoldAll(a)[..i] == FoldAll(b)[..i]
    {
      if ToLower(a[i]) != ToLower(b[i]) {
        assert FoldAll(a)[i] != FoldAll(b)[i];
        return false;
      }
    }
    return true;
  }

  function Key(e: Expr): seq<string> {
    FoldAll(SortStrings(Labels(e)))
  }

  /** None stands for a nil argument. */
  predicate Equals(c: ConditionInfo, compare: Option<ConditionInfo>) {
    match compare
    case None => false
    case Some(d) =>
      && c.action == d.action
      && (c.rule == d.rule
          || (match (ParseTokens(c.rule), ParseTokens(d.rule))
              case (Ok(x), Ok(y)) => Key(x) == Key(y)
              case _ => false))
  }

  method CompareConditions(c: ConditionInfo, compare: Option<ConditionInfo>) returns (equal: bool)
    ensures equal == Equals(c, compare)
  {
    if compare == None || c.action != compare.value.action {
      return false;
    }
    if c.rule == compare.value.rule {
      return true;
    }
    var expression := ParseFilter(c.rule);
    var compareExpression := ParseFilter(compare.value.rule);
    if expression.Err? || compareExpression.Err? {
      return false;
    }
    var seq1 := SortStrings(Labels(expression.value));
    var seq2 := SortStrings(Labels(compareExpression.value));
    equal := SlicesAreEqual(seq1, seq2);
  }

  /** An allow and a deny never compare equal, whatever their rules. */
  lemma ActionsAgree(c: ConditionInfo, d: ConditionInfo)
    ensures Equals(c, Some(d)) ==> c.action == d.action
    ensures c.rule == d.rule ==> (Equals(c, Some(d)) <==> c.action == d.action)
  {}

  /** Equals is an equivalence relation. */
  lemma EqualsEquivalence(a: ConditionInfo, b: ConditionInfo, c: ConditionInfo)
    ensures Equals(a, Some(a))
    ensures Equals(a, Some(b)) ==> Equals(b, Some(a))
    ensures Equals(a, Some(b)) && Equals(b, Some(c)) ==> Equals(a, Some(c))
  {}

  // ----- variants of a rule that compare equal

  datatype Context =
    | Hole
    | InNot(inner: Context)
    | InPrec(inner: Context)
    | InLeft(op: LogicOp, inner: Context, right: Expr)
    | InRight(op: LogicOp, left: Expr, inner: Context)

  /** One layer of a context. */
  function Wrap(c: Context, e: Expr): Expr
    requires c != Hole
  {
    match c
    case InNot(_) => Not(e)
    case InPrec(_) => Prec(e)
    case InLeft(op, _, r) => Logic(op, e, r)
    case InRight(op, l, _) => Logic(op, l, e)
  }

  function Plug(c: Context, e: Expr): Expr {
    if c == Hole then e else Wrap(c, Plug(c.inner, e))
  }

  predicate HoleUnderNot(c: Context) {
    match c
    case Hole => false
    case InNot(k) => k == Hole || HoleUnderNot(k)
    case InPrec(k) => HoleUnderNot(k)
    case InLeft(_, k, _) => HoleUnderNot(k)
    case InRight(_, _, k) => HoleUnderNot(k)
  }

  predicate IsSwap(a: Expr, b: Expr) {
    a.Logic? && b.Logic? && a.op == b.op && a.left == b.right && a.right == b.left
  }

  predicate IsRotation(a: Expr, b: Expr) {
    && a.Logic? && b.Logic? && a.op == b.op && a.left.Logic? && a.left.op == a.op
    && b == Logic(a.op, a.left.left, Logic(a.op, a.left.right, a.right))
  }

  predicate IsBracket(a: Expr, b: Expr) {
    a == Prec(b)
  }

  /** One change somewhere in the tree: swap operands, regroup a run, or drop brackets that do
      not stand directly under a `not`. */
  predicate Step(c: Context, a: Expr, b: Expr) {
    IsSwap(a, b) || IsRotation(a, b) || (IsBracket(a, b) && !HoleUnderNot(c))
  }

  /** How often a label is sent. */
  function CountOf(e: Expr, s: string): nat {
    match e
    case Attr(a) => One(AtomString(a) == s)
    case Not(x) => One(NotDif(x) == s) + CountOf(x, s)
    case Prec(x) => CountOf(x, s)
    case Logic(op, l, r) => One(OpString(op) == s) + CountOf(l, s) + CountOf(r, s)
  }

  lemma {:induction false} LabelsCount(e: Expr, s: string)
    ensures multiset(Labels(e))[s] == CountOf(e, s)
  {
    match e
    case Attr(_) =>
    case Not(x) => LabelsCount(x, s);
    case Prec(x) => LabelsCount(x, s);
    case Logic(op, l, r) =>
      LabelsCount(l, s);
      LabelsCount(r, s);
      var o := [OpString(op)];
      assert multiset(o + Labels(l) + Labels(r)) == multiset(o + Labels(l)) + multiset(Labels(r));
  }

  lemma LogicCount(op: LogicOp, l: Expr, r: Expr, s: string)
    ensures CountOf(Logic(op, l, r), s) == One(OpString(op) == s) + CountOf(l, s) + CountOf(r, s)
  {}

  lemma NotCount(x: Expr, s: string)
    ensures CountOf(Not(x), s) == One(NotDif(x) == s) + CountOf(x, s)
  {}

  lemma WrapCount(c: Context, x: Expr, y: Expr, s: string)
    requires c != Hole && CountOf(x, s) == CountOf(y, s)
    requires c.InNot? ==> NotDif(x) == NotDif(y)
    ensures CountOf(Wrap(c, x), s) == CountOf(Wrap(c, y), s)
  {
    match c
    case InNot(_) => NotCount(x, s); NotCount(y, s);
    case InPrec(_) =>
    case InLeft(op, _, r) => LogicCount(op, x, r, s); LogicCount(op, y, r, s);
    case InRight(op, l, _) => LogicCount(op, l, x, s); LogicCount(op, l, y, s);
  }

  lemma {:induction false} PlugCount(c: Context, a: Expr, b: Expr, s: string)
    requires CountOf(a, s) == CountOf(b, s)
    requires HoleUnderNot(c) ==> !a.Attr? && !b.Attr?
    ensures CountOf(Plug(c, a), s) == CountOf(Plug(c, b), s)
  {
    if c == Hole {
    } else {
      PlugCount(c.inner, a, b, s);
      WrapCount(c, Plug(c.inner, a), Plug(c.inner, b), s);
    }
  }

  lemma StepCount(c: Context, a: Expr, b: Expr, s: string)
    requires Step(c, a, b)
    ensures CountOf(Plug(c, a), s) == CountOf(Plug(c, b), s)
  {
    PlugCount(c, a, b, s);
  }

  lemma SameLabelsSameKey(x: Expr, y: Expr)
    requires forall s :: CountOf(x, s) == CountOf(y, s)
    ensures Key(x) == Key(y)
  {
    forall s ensures multiset(Labels(x))[s] == multiset(Labels(y))[s] {
      LabelsCount(x, s);
      LabelsCount(y, s);
    }
    assert multiset(Labels(x)) == multiset(Labels(y));
    SortedUnique(SortStrings(Labels(x)), SortStrings(Labels(y)));
  }

  /** One change of a rule, in either direction. */
  ghost predicate OneStep(x: Expr, y: Expr) {
    exists c, a, b :: Step(c, a, b) && ((x == Plug(c, a) && y == Plug(c, b)) || (y == Plug(c, a) && x == Plug(c, b)))
  }

  ghost predicate Variants(path: seq<Expr>) {
    forall i :: 0 <= i < |path| - 1 ==> OneStep(path[i], path[i + 1])
  }

  lemma {:induction false} VariantsSameKey(path: seq<Expr>)
    requires path != [] && Variants(path)
    ensures Key(path[0]) == Key(path[|path| - 1])
  {
    if |path| == 1 {
    } else {
      var init := path[..|path| - 1];
      VariantsSameKey(init);
      var x, y := path[|path| - 2], path[|path| - 1];
      assert OneStep(path[|path| - 2], path[|path| - 2 + 1]);
      var c, a, b :| Step(c, a, b)
        && ((x == Plug(c, a) && y == Plug(c, b)) || (y == Plug(c, a) && x == Plug(c, b)));
      forall s ensures CountOf(x, s) == CountOf(y, s) {
        StepCount(c, a, b, s);
      }
      SameLabelsSameKey(x, y);
    }
  }

  /** Main result: rules whose trees are joined by any number of swaps, regroupings and bracket
      changes compare equal. */
  lemma VariantsEqual(c: ConditionInfo, d: ConditionInfo, path: seq<Expr>)
    requires c.action == d.action && path != [] && Variants(path)
    requires ParseTokens(c.rule) == Ok(path[0]) && ParseTokens(d.rule) == Ok(path[|path| - 1])
    ensures Equals(c, Some(d))
  {
    VariantsSameKey(path);
  }

  // ----- what equality says about meaning

  /** Paths are words: no blank and no bracket in them. */
  predicate PlainPaths(e: Expr) {
    match e
    case Attr(a) => a.path != "" && '(' !in a.path && ' ' !in a.path
    case Not(x) => PlainPaths(x)
    case Prec(x) => PlainPaths(x)
    case Logic(_, l, r) => PlainPaths(l) && PlainPaths(r)
  }

  predicate Literal(e: Expr) {
    match e
    case Attr(_) => true
    case Not(x) => x.Attr?
    case Prec(x) => Literal(x)
    case Logic(_, _, _) => false
  }

  /** A run of one operator over possibly negated comparisons, brackets anywhere but under `not`. */
  predicate LiteralRun(e: Expr, op: LogicOp) {
    match e
    case Prec(x) => LiteralRun(x, op)
    case Logic(o, l, r) => o == op && LiteralRun(l, op) && LiteralRun(r, op)
    case _ => Literal(e)
  }

  /** Comparisons that differ in letter case only have the same truth. */
  ghost predicate CaseBlind(v: Valuation, val: string -> bool) {
    forall a :: v(a) == val(ToLower(AtomString(a)))
  }

  function Bag(e: Expr): multiset<string> {
    multiset(FoldAll(Labels(e)))
  }

  /** A blank comes before any bracket: so begins a comparison, and no other label. */
  predicate AtomLike(s: string) {
    exists i :: 0 <= i < |s| && s[i] == ' ' && '(' !in s[..i]
  }

  lemma AtomLikeAtom(a: Atom)
    requires a.path != "" && '(' !in a.path && ' ' !in a.path
    ensures AtomLike(ToLower(AtomString(a)))
  {
    var s := ToLower(AtomString(a));
    var i := |a.path|;
    assert AtomString(a)[..i] == a.path && AtomString(a)[i] == ' ';
    forall k | 0 <= k < i ensures s[k] != '(' {
      assert s[k] == LowerChar(AtomString(a)[k]) && AtomString(a)[k] == a.path[k];
    }
    assert s[i] == ' ' && '(' !in s[..i];
  }

  lemma OtherLabels(s: string)
    ensures !AtomLike(NotLabel(s)) && !AtomLike("and") && !AtomLike("or") && !AtomLike("not")
    ensures ToLower(NotLabel(s)) == NotLabel(ToLower(s))
    ensures NotLabel(s) != "and" && NotLabel(s) != "or" && NotLabel(s) != "not"
    ensures ToLower("and") == "and" && ToLower("or") == "or" && ToLower("not") == "not"
  {
    var n := NotLabel(s);
    assert n[0] == 'n' && n[1] == 'o' && n[2] == 't' && n[3] == '(';
    forall i | 0 <= i < |n| && n[i] == ' ' ensures '(' in n[..i] {
      assert i > 3 && n[..i][3] == '(';
    }
    var m := NotLabel(ToLower(s));
    forall k | 0 <= k < |n| ensures ToLower(n)[k] == m[k] {}
    assert |n| > 4;
  }

  lemma NotLabelInjective(s: string, t: string)
    requires NotLabel(s) == NotLabel(t)
    ensures s == t
  {
    assert NotLabel(s)[4..|s| + 4] == s && NotLabel(t)[4..|t| + 4] == t;
  }

  lemma BagCat(a: seq<string>, b: seq<string>)
    ensures multiset(FoldAll(a + b)) == multiset(FoldAll(a)) + multiset(FoldAll(b))
  {
    assert FoldAll(a + b) == FoldAll(a) + FoldAll(b);
  }

  lemma BagLogic(e: Expr)
    requires e.Logic?
    ensures Bag(e) == multiset{OpString(e.op)} + Bag(e.left) + Bag(e.right)
  {
    OtherLabels("");
    BagCat([OpString(e.op)], Labels(e.left));
    BagCat([OpString(e.op)] + Labels(e.left), Labels(e.right));
    assert FoldAll([OpString(e.op)]) == [OpString(e.op)];
  }

  lemma BagNot(e: Expr)
    requires e.Not?
    ensures Bag(e) == Bag(e.arg)
      + multiset{if e.arg.Attr? then NotLabel(ToLower(AtomString(e.arg.atom))) else "not"}
  {
    var n := Labels(e)[0];
    OtherLabels(if e.arg.Attr? then AtomString(e.arg.atom) else "");
    BagCat([n], Labels(e.arg));
    assert FoldAll([n]) == [ToLower(n)];
  }

  lemma BagAttr(e: Expr)
    requires e.Attr?
    ensures Bag(e) == multiset{ToLower(AtomString(e.atom))}
  {
    assert FoldAll(Labels(e)) == [ToLower(AtomString(e.atom))];
  }

  // ----- what the labels determine

  /** A comparison, and whether it stands directly under a `not`. */
  datatype Lit = Lit(atom: Atom, neg: bool)

  function Lits(e: Expr): seq<Lit> {
    match e
    case Attr(a) => [Lit(a, false)]
    case Not(x) => if x.Attr? then [Lit(x.atom, true)] else Lits(x)
    case Prec(x) => Lits(x)
    case Logic(_, l, r) => Lits(l) + Lits(r)
  }

  /** The `not`s that do not stand directly before a comparison. */
  function Nots(e: Expr): nat {
    match e
    case Attr(_) => 0
    case Not(x) => if x.Attr? then 0 else 1 + Nots(x)
    case Prec(x) => Nots(x)
    case Logic(_, l, r) => Nots(l) + Nots(r)
  }

  function Ops(e: Expr, op: LogicOp): nat {
    match e
    case Attr(_) => 0
    case Not(x) => Ops(x, op)
    case Prec(x) => Ops(x, op)
    case Logic(o, l, r) => One(o == op) + Ops(l, op) + Ops(r, op)
  }

  function Label(l: Lit): string {
    ToLower(AtomString(l.atom))
  }

  /** How often a comparison of that label stands plain, or negated. */
  function LabelCount(ls: seq<Lit>, s: string, neg: bool): nat {
    if ls == [] then 0 else One(Label(ls[0]) == s && ls[0].neg == neg) + LabelCount(ls[1..], s, neg)
  }

  lemma {:induction false} LabelCat(a: seq<Lit>, b: seq<Lit>, s: string, neg: bool)
    ensures LabelCount(a + b, s, neg) == LabelCount(a, s, neg) + LabelCount(b, s, neg)
  {
    if a == [] {
      assert a + b == b;
    } else {
      assert (a + b)[1..] == a[1..] + b;
      LabelCat(a[1..], b, s, neg);
    }
  }

  lemma LabelOne(l: Lit, s: string, neg: bool)
    ensures LabelCount([l], s, neg) == One(Label(l) == s && l.neg == neg)
  {
    assert [l][1..] == [];
    assert LabelCount([], s, neg) == 0;
  }

  lemma {:induction false} LabelFound(ls: seq<Lit>, s: string, neg: bool)
    ensures LabelCount(ls, s, neg) > 0 <==> exists i :: 0 <= i < |ls| && Label(ls[i]) == s && ls[i].neg == neg
  {
    if ls == [] {
    } else {
      var rest := ls[1..];
      LabelFound(rest, s, neg);
      assert forall i :: 0 <= i < |rest| ==> ls[i + 1] == rest[i];
      assert forall i :: 0 < i < |ls| ==> rest[i - 1] == ls[i];
    }
  }

  predicate NegCounted(e: Expr, s: string) {
    Bag(e)[NotLabel(s)] == LabelCount(Lits(e), s, true)
  }

  predicate PosCounted(e: Expr, s: string) {
    var n, p := LabelCount(Lits(e), s, true), LabelCount(Lits(e), s, false);
    if AtomLike(s) then Bag(e)[s] == p + n else p == n == 0
  }

  predicate RestCounted(e: Expr) {
    Bag(e)["not"] == Nots(e) && Bag(e)["and"] == Ops(e, And) && Bag(e)["or"] == Ops(e, Or)
  }

  /** Up to letter case, the labels count the plain comparisons, the negated ones, the other `not`s
      and the operators. */
  predicate Counted(e: Expr, s: string) {
    NegCounted(e, s) && PosCounted(e, s) && RestCounted(e)
  }

  lemma AttrCounts(e: Expr, s: string)
    requires e.Attr? && PlainPaths(e)
    ensures Counted(e, s)
  {
    OtherLabels(s);
    AtomLikeAtom(e.atom);
    BagAttr(e);
    LabelOne(Lit(e.atom, false), s, true);
    LabelOne(Lit(e.atom, false), s, false);
  }

  lemma NotCounts(e: Expr, s: string)
    requires e.Not? && e.arg.Attr? && PlainPaths(e)
    ensures Counted(e, s)
  {
    var t := ToLower(AtomString(e.arg.atom));
    OtherLabels(s);
    OtherLabels(t);
    AtomLikeAtom(e.arg.atom);
    BagAttr(e.arg);
    BagNot(e);
    LabelOne(Lit(e.arg.atom, true), s, true);
    LabelOne(Lit(e.arg.atom, true), s, false);
    if NotLabel(s) == NotLabel(t) {
      NotLabelInjective(s, t);
    }
  }

  lemma GroupCounts(e: Expr, s: string)
    requires e.Not? && !e.arg.Attr? && Counted(e.arg, s)
    ensures Counted(e, s)
  {
    OtherLabels(s);
    BagNot(e);
  }

  lemma BagLogicAt(e: Expr, t: string)
    requires e.Logic?
    ensures Bag(e)[t] == One(OpString(e.op) == t) + Bag(e.left)[t] + Bag(e.right)[t]
  {
    BagLogic(e);
  }

  lemma LogicNegCounts(e: Expr, s: string)
    requires e.Logic? && NegCounted(e.left, s) && NegCounted(e.right, s)
    ensures NegCounted(e, s)
  {
    OtherLabels(s);
    BagLogicAt(e, NotLabel(s));
    LabelCat(Lits(e.left), Lits(e.right), s, true);
  }

  lemma LogicPosCounts(e: Expr, s: string)
    requires e.Logic? && PosCounted(e.left, s) && PosCounted(e.right, s)
    ensures PosCounted(e, s)
  {
    OtherLabels(s);
    BagLogicAt(e, s);
    LabelCat(Lits(e.left), Lits(e.right), s, true);
    LabelCat(Lits(e.left), Lits(e.right), s, false);
  }

  lemma LogicRestCounts(e: Expr)
    requires e.Logic? && RestCounted(e.left) && RestCounted(e.right)
    ensures RestCounted(e)
  {
    BagLogicAt(e, "not");
    BagLogicAt(e, "and");
    BagLogicAt(e, "or");
    assert "and"[0] == 'a' && "or"[0] == 'o' && "not"[0] == 'n';
  }

  /** Every tree is counted so. */
  lemma {:induction false} AllCounted(e: Expr, s: string)
    requires PlainPaths(e)
    ensures Counted(e, s)
  {
    match e
    case Attr(_) => AttrCounts(e, s);
    case Not(x) =>
      if x.Attr? {
        NotCounts(e, s);
      } else {
        AllCounted(x, s);
        GroupCounts(e, s);
      }
    case Prec(x) => AllCounted(x, s);
    case Logic(_, l, r) =>
      AllCounted(l, s);
      AllCounted(r, s);
      LogicNegCounts(e, s);
      LogicPosCounts(e, s);
      LogicRestCounts(e);
  }

  /** The same comparisons up to letter case, plain and negated, and as many of everything else. */
  ghost predicate Alike(x: Expr, y: Expr) {
    && (forall s, neg :: LabelCount(Lits(x), s, neg) == LabelCount(Lits(y), s, neg))
    && Nots(x) == Nots(y) && forall op :: Ops(x, op) == Ops(y, op)
  }

  lemma TakeOut(b: seq<string>, i: nat)
    requires i < |b|
    ensures multiset(b) == multiset(b[..i] + b[i + 1..]) + multiset{b[i]}
    ensures multiset(FoldAll(b)) == multiset(FoldAll(b[..i] + b[i + 1..])) + multiset{ToLower(b[i])}
  {
    assert b == b[..i] + ([b[i]] + b[i + 1..]);
    BagCat(b[..i], [b[i]] + b[i + 1..]);
    BagCat([b[i]], b[i + 1..]);
    BagCat(b[..i], b[i + 1..]);
    assert FoldAll([b[i]]) == [ToLower(b[i])];
  }

  lemma {:induction false} FoldKeepsBag(a: seq<string>, b: seq<string>)
    requires multiset(a) == multiset(b)
    ensures multiset(FoldAll(a)) == multiset(FoldAll(b))
    decreases |a|
  {
    if a == [] {
      assert |multiset(b)| == 0;
      assert b == [];
    } else {
      assert a[0] in multiset(b);
      var i :| 0 <= i < |b| && b[i] == a[0];
      TakeOut(a, 0);
      TakeOut(b, i);
      assert a[..0] + a[1..] == a[1..];
      assert multiset(a[1..]) == multiset(a) - multiset{a[0]};
      assert multiset(b[..i] + b[i + 1..]) == multiset(b) - multiset{a[0]};
      FoldKeepsBag(a[1..], b[..i] + b[i + 1..]);
    }
  }

  lemma SameKeySameBag(x: Expr, y: Expr)
    requires Key(x) == Key(y)
    ensures Bag(x) == Bag(y)
  {
    FoldKeepsBag(SortStrings(Labels(x)), Labels(x));
    FoldKeepsBag(SortStrings(Labels(y)), Labels(y));
  }

  /** Main result about the labels: rules that compare equal are alike. */
  lemma SameKeyAlike(x: Expr, y: Expr)
    requires Key(x) == Key(y) && PlainPaths(x) && PlainPaths(y)
    ensures Alike(x, y)
  {
    SameKeySameBag(x, y);
    forall s, neg: bool ensures LabelCount(Lits(x), s, neg) == LabelCount(Lits(y), s, neg) {
      SameBagSameCounts(x, y, s, neg);
    }
    forall op ensures Nots(x) == Nots(y) && Ops(x, op) == Ops(y, op) {
      SameBagSameOps(x, y, op);
    }
    assert Ops(x, And) == Ops(y, And);
  }

  lemma SameBagSameCounts(x: Expr, y: Expr, s: string, neg: bool)
    requires Bag(x) == Bag(y) && PlainPaths(x) && PlainPaths(y)
    ensures LabelCount(Lits(x), s, neg) == LabelCount(Lits(y), s, neg)
  {
    AllCounted(x, s);
    AllCounted(y, s);
  }

  lemma SameBagSameOps(x: Expr, y: Expr, op: LogicOp)
    requires Bag(x) == Bag(y) && PlainPaths(x) && PlainPaths(y)
    ensures Nots(x) == Nots(y) && Ops(x, op) == Ops(y, op)
  {
    AllCounted(x, "");
    AllCounted(y, "");
    assert op == And || op == Or;
  }

  // ----- literal runs

  lemma {:induction false} CountsMakeRun(e: Expr, op: LogicOp)
    requires Nots(e) == 0 && Ops(e, if op == And then Or else And) == 0
    ensures LiteralRun(e, op)
  {
    match e
    case Attr(_) =>
    case Not(_) =>
    case Prec(x) => CountsMakeRun(x, op);
    case Logic(_, l, r) => CountsMakeRun(l, op); CountsMakeRun(r, op);
  }

  lemma {:induction false} RunHasNoOther(e: Expr, op: LogicOp)
    requires LiteralRun(e, op)
    ensures Nots(e) == 0 && Ops(e, if op == And then Or else And) == 0
  {
    match e
    case Attr(_) =>
    case Not(_) =>
    case Prec(x) => RunHasNoOther(x, op);
    case Logic(_, l, r) => RunHasNoOther(l, op); RunHasNoOther(r, op);
  }

  predicate LitEval(l: Lit, v: Valuation) {
    v(l.atom) != l.neg
  }

  predicate LitsEval(op: LogicOp, ls: seq<Lit>, v: Valuation) {
    match op
    case And => forall l | l in ls :: LitEval(l, v)
    case Or => exists l | l in ls :: LitEval(l, v)
  }

  /** A literal run is true when all its literals are, or some. */
  lemma {:induction false} RunEval(e: Expr, op: LogicOp, v: Valuation)
    requires LiteralRun(e, op)
    ensures Eval(e, v) == LitsEval(op, Lits(e), v)
  {
    match e
    case Attr(a) => assert Lit(a, false) in Lits(e);
    case Not(x) => assert Lit(x.atom, true) in Lits(e);
    case Prec(x) => RunEval(x, op, v);
    case Logic(_, l, r) =>
      RunEval(l, op, v);
      RunEval(r, op, v);
      LitsUnion(op, Lits(l), Lits(r), v);
  }

  lemma LitsUnion(op: LogicOp, a: seq<Lit>, b: seq<Lit>, v: Valuation)
    ensures LitsEval(op, a + b, v) == Apply(op, LitsEval(op, a, v), LitsEval(op, b, v))
  {
    assert forall l :: l in a + b <==> l in a || l in b;
  }

  /** Literals of one label and sign have one truth, for a valuation that is blind to letter case. */
  lemma AlikeLit(x: Expr, y: Expr, l: Lit, v: Valuation, val: string -> bool) returns (m: Lit)
    requires Alike(x, y) && CaseBlind(v, val) && l in Lits(x)
    ensures m in Lits(y) && Label(m) == Label(l) && m.neg == l.neg && LitEval(l, v) == LitEval(m, v)
  {
    LabelFound(Lits(x), Label(l), l.neg);
    LabelFound(Lits(y), Label(l), l.neg);
    var i :| 0 <= i < |Lits(y)| && Label(Lits(y)[i]) == Label(l) && Lits(y)[i].neg == l.neg;
    m := Lits(y)[i];
  }

  lemma AlikeRuns(x: Expr, y: Expr, op: LogicOp, v: Valuation, val: string -> bool)
    requires Alike(x, y) && CaseBlind(v, val)
    ensures LitsEval(op, Lits(x), v) == LitsEval(op, Lits(y), v)
  {
    forall l | l in Lits(x) ensures exists m :: m in Lits(y) && LitEval(m, v) == LitEval(l, v) {
      var m := AlikeLit(x, y, l, v, val);
    }
    forall l | l in Lits(y) ensures exists m :: m in Lits(x) && LitEval(m, v) == LitEval(l, v) {
      var m := AlikeLit(y, x, l, v, val);
    }
  }

  /** Main result, for requests to which letter case does not matter: a rule that compares equal to a
      conjunction (or disjunction) of possibly negated comparisons is one too, and means the same. */
  lemma EqualRunsEquivalent(c: ConditionInfo, d: ConditionInfo, op: LogicOp, v: Valuation, val: string -> bool)
    requires Equals(c, Some(d)) && ParseTokens(c.rule).Ok?
    requires var x := ParseTokens(c.rule).value; LiteralRun(x, op) && PlainPaths(x)
    requires ParseTokens(d.rule).Ok? ==> PlainPaths(ParseTokens(d.rule).value)
    requires CaseBlind(v, val)
    ensures c.action == d.action && ParseTokens(d.rule).Ok? && LiteralRun(ParseTokens(d.rule).value, op)
    ensures Eval(ParseTokens(c.rule).value, v) == Eval(ParseTokens(d.rule).value, v)
  {
    if c.rule != d.rule {
      var x, y := ParseTokens(c.rule).value, ParseTokens(d.rule).value;
      SameKeyAlike(x, y);
      RunHasNoOther(x, op);
      CountsMakeRun(y, op);
      RunEval(x, op, v);
      RunEval(y, op, v);
      AlikeRuns(x, y, op, v, val);
    }
  }
}
