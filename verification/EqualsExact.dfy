/** When is a true from ConditionInfo.Equals right for every request? Letters matter to some
    comparisons (`sw`, `ew`, `co`), and Equals does not look at their case. */
module EqualsExact {
  import opened Idql
  import opened Strings
  import opened Sorting
  import opened Parser
  import opened ParserFold
  import opened ParserRetract
  import opened ConditionEquals
  import opened EqualsRuns

  // ----- other casings of a rule

  predicate CaseVariant(a: Atom, b: Atom) {
    ToLower(a.path) == ToLower(b.path) && a.op == b.op && ToLower(a.value) == ToLower(b.value)
  }

  /** The same tree with the letters of its words in other cases. */
  predicate Recased(x: Expr, y: Expr) {
    match (x, y)
    case (Attr(a), Attr(b)) => CaseVariant(a, b)
    case (Not(t), Not(u)) => Recased(t, u)
    case (Prec(t), Prec(u)) => Recased(t, u)
    case (Logic(o, l, r), Logic(p, m, s)) => o == p && Recased(l, m) && Recased(r, s)
    case _ => false
  }

  /** No other casing of the rule's words sorts like its own. */
  ghost predicate CaseFixed(x: Expr) {
    forall y :: Recased(x, y) && Key(y) == Key(x) ==> y == x
  }

  /** Blanks and brackets have no case. */
  lemma LowerKeeps(a: string, b: string, c: char)
    requires ToLower(a) == ToLower(b) && c in {' ', '(', ')'}
    ensures |a| == |b| && (c in a <==> c in b)
    ensures forall i :: 0 <= i < |a| ==> (a[i] == c <==> b[i] == c)
  {
    assert |ToLower(a)| == |a| && |ToLower(b)| == |b|;
    forall i | 0 <= i < |a| ensures a[i] == c <==> b[i] == c {
      assert ToLower(a)[i] == LowerChar(a[i]) && ToLower(b)[i] == LowerChar(b[i]);
    }
  }

  lemma VariantWords(a: Atom, b: Atom)
    requires CaseVariant(a, b)
    ensures WfAtom(a) <==> WfAtom(b)
    ensures PlainPaths(Attr(a)) <==> PlainPaths(Attr(b))
    ensures IsLogicWord(a.value) <==> IsLogicWord(b.value)
    ensures ToLower(AtomString(a)) == ToLower(AtomString(b))
  {
    LowerKeeps(a.path, b.path, ' ');
    LowerKeeps(a.path, b.path, '(');
    LowerKeeps(a.value, b.value, ')');
    LowerCat(a.path, " ");
    LowerCat(b.path, " ");
    LowerCat(a.path, " pr");
    LowerCat(b.path, " pr");
    LowerCat(a.path + " ", OpWord(a.op));
    LowerCat(b.path + " ", OpWord(a.op));
    LowerCat(a.path + " " + OpWord(a.op), " ");
    LowerCat(b.path + " " + OpWord(a.op), " ");
    LowerCat(a.path + " " + OpWord(a.op) + " ", a.value);
    LowerCat(b.path + " " + OpWord(a.op) + " ", b.value);
  }

  lemma LowerCat(a: string, b: string)
    ensures ToLower(a + b) == ToLower(a) + ToLower(b)
  {
    assert forall i :: 0 <= i < |a + b| ==> ToLower(a + b)[i] == (ToLower(a) + ToLower(b))[i];
  }

  /** Another casing of an accepted rule is accepted. */
  lemma {:induction false} RecasedParsed(x: Expr, y: Expr, last: bool)
    requires Recased(x, y)
    ensures ParsedTree(x, last) ==> ParsedTree(y, last)
    ensures PlainPaths(x) ==> PlainPaths(y)
    ensures HasNot(x) == HasNot(y)
  {
    match x
    case Attr(a) => VariantWords(a, y.atom);
    case Not(t) => RecasedParsed(t, y.arg, true);
    case Prec(t) => RecasedParsed(t, y.body, true);
    case Logic(_, l, r) =>
      RecasedParsed(l, y.left, false);
      RecasedParsed(r, y.right, last);
  }

  predicate LitsAlike(a: seq<Lit>, b: seq<Lit>) {
    |a| == |b| && forall i :: 0 <= i < |a| ==> Label(a[i]) == Label(b[i]) && a[i].neg == b[i].neg
  }

  lemma AlikeCat(a: seq<Lit>, b: seq<Lit>, c: seq<Lit>, d: seq<Lit>)
    requires LitsAlike(a, c) && LitsAlike(b, d)
    ensures LitsAlike(a + b, c + d)
    ensures a + b == c + d ==> a == c && b == d
  {
    var x, y := a + b, c + d;
    forall i | 0 <= i < |x| ensures Label(x[i]) == Label(y[i]) && x[i].neg == y[i].neg {
      if i < |a| {
        assert x[i] == a[i] && y[i] == c[i];
      } else {
        assert x[i] == b[i - |a|] && y[i] == d[i - |a|];
      }
    }
    assert a == x[..|a|] && b == x[|a|..] && c == y[..|a|] && d == y[|a|..];
  }

  /** Its literals are the rule's, one by one, in another casing. */
  lemma {:induction false} RecasedLits(x: Expr, y: Expr)
    requires Recased(x, y)
    ensures LitsAlike(Lits(x), Lits(y))
    ensures Lits(x) == Lits(y) ==> x == y
  {
    match x
    case Attr(a) => VariantWords(a, y.atom);
    case Not(t) =>
      if t.Attr? {
        VariantWords(t.atom, y.arg.atom);
      } else {
        RecasedLits(t, y.arg);
      }
    case Prec(t) => RecasedLits(t, y.body);
    case Logic(_, l, r) =>
      RecasedLits(l, y.left);
      RecasedLits(r, y.right);
      AlikeCat(Lits(l), Lits(r), Lits(y.left), Lits(y.right));
  }

  lemma {:induction false} RecasedCounts(x: Expr, y: Expr)
    requires Recased(x, y)
    ensures Nots(x) == Nots(y) && forall op :: Ops(x, op) == Ops(y, op)
  {
    match x
    case Attr(_) =>
    case Not(t) => RecasedCounts(t, y.arg);
    case Prec(t) => RecasedCounts(t, y.body);
    case Logic(_, l, r) => RecasedCounts(l, y.left); RecasedCounts(r, y.right);
  }

  // ----- a casing that sorts alike is told apart

  predicate StandsIn(a: Atom, ls: seq<Lit>) {
    Lit(a, false) in ls || Lit(a, true) in ls
  }

  lemma {:induction false} AtomsAreLits(x: Expr, a: Atom)
    ensures a in AtomsOf(x) <==> StandsIn(a, Lits(x))
  {
    match x
    case Attr(_) =>
    case Not(t) =>
      if !t.Attr? {
        AtomsAreLits(t, a);
      }
    case Prec(t) => AtomsAreLits(t, a);
    case Logic(_, l, r) =>
      AtomsAreLits(l, a);
      AtomsAreLits(r, a);
  }

  /** Distinct labels at different places. */
  lemma DistinctParts(a: seq<Lit>, b: seq<Lit>)
    requires Distinct(a + b)
    ensures Distinct(a) && Distinct(b)
    ensures forall l, m :: l in a && m in b ==> Label(l) != Label(m)
  {
    var c := a + b;
    assert forall i :: 0 <= i < |a| ==> c[i] == a[i];
    assert forall i :: 0 <= i < |b| ==> c[|a| + i] == b[i];
    forall l, m | l in a && m in b ensures Label(l) != Label(m) {
      var i :| 0 <= i < |a| && a[i] == l;
      var j :| 0 <= j < |b| && b[j] == m;
      assert Label(c[i]) != Label(c[|a| + j]);
    }
    forall i, j | 0 <= i < j < |b| ensures Label(b[i]) != Label(b[j]) {
      assert Label(c[|a| + i]) != Label(c[|a| + j]);
    }
  }

  lemma {:induction false} DistinctOnce(x: Expr)
    requires Distinct(Lits(x))
    ensures ReadOnce(x)
  {
    match x
    case Attr(_) =>
    case Not(t) => if !t.Attr? { DistinctOnce(t); }
    case Prec(t) => DistinctOnce(t);
    case Logic(_, l, r) =>
      DistinctParts(Lits(l), Lits(r));
      DistinctOnce(l);
      DistinctOnce(r);
      forall a | a in AtomsOf(l) ensures a !in AtomsOf(r) {
        AtomsAreLits(l, a);
        AtomsAreLits(r, a);
        assert Label(Lit(a, false)) == Label(Lit(a, true));
      }
  }

  lemma NotAtOther(ls: seq<Lit>, ms: seq<Lit>, i: nat, j: nat)
    requires Distinct(ls) && LitsAlike(ls, ms) && i < |ls| && j < |ms| && ls[i] != ms[i]
    ensures ms[j].atom != ls[i].atom
  {
    if j != i {
      assert Label(ls[if i < j then i else j]) != Label(ls[if i < j then j else i]);
    }
  }

  /** Two casings that differ, of a rule with distinct comparisons, differ in meaning. */
  lemma CasingsDiffer(x: Expr, y: Expr) returns (v: Valuation)
    requires Recased(x, y) && x != y && Distinct(Lits(x))
    ensures Eval(x, v) != Eval(y, v)
  {
    RecasedLits(x, y);
    var i :| 0 <= i < |Lits(x)| && Lits(x)[i] != Lits(y)[i];
    var l := Lits(x)[i];
    var a := l.atom;
    AtomsAreLits(x, a);
    AtomsAreLits(y, a);
    forall j | 0 <= j < |Lits(y)| ensures Lits(y)[j].atom != a {
      NotAtOther(Lits(x), Lits(y), i, j);
    }
    DistinctOnce(x);
    var w := Sensitive(x, a);
    var v1, v2 := Set(w, a, true), Set(w, a, false);
    EvalLocal(y, v1, v2);
    v := if Eval(x, v1) != Eval(y, v1) then v1 else v2;
  }

  // ----- and otherwise the comparisons are the same

  /** The literal of `ls` with the label and sign of `l`. */
  function Find(ls: seq<Lit>, l: Lit): Lit {
    if ls == [] then l
    else if Label(ls[0]) == Label(l) && ls[0].neg == l.neg then ls[0]
    else Find(ls[1..], l)
  }

  lemma {:induction false} FindFound(ls: seq<Lit>, l: Lit)
    requires LabelCount(ls, Label(l), l.neg) > 0
    ensures Find(ls, l) in ls && Label(Find(ls, l)) == Label(l) && Find(ls, l).neg == l.neg
  {
    if Label(ls[0]) == Label(l) && ls[0].neg == l.neg {
    } else {
      FindFound(ls[1..], l);
    }
  }

  /** `e` with its comparisons cased as they are in `ls`. */
  function Recase(e: Expr, ls: seq<Lit>): Expr {
    match e
    case Attr(a) => Attr(Find(ls, Lit(a, false)).atom)
    case Not(x) => if x.Attr? then Not(Attr(Find(ls, Lit(x.atom, true)).atom)) else Not(Recase(x, ls))
    case Prec(x) => Prec(Recase(x, ls))
    case Logic(op, l, r) => Logic(op, Recase(l, ls), Recase(r, ls))
  }

  predicate AllFound(es: seq<Lit>, ls: seq<Lit>) {
    forall i :: 0 <= i < |es| ==> LabelCount(ls, Label(es[i]), es[i].neg) > 0
  }

  /** A word for a path, as the parser accepts it. */
  predicate Readable(a: Atom) {
    WfAtom(a) && PlainPaths(Attr(a))
  }

  predicate AllReadable(ls: seq<Lit>) {
    forall m :: m in ls ==> Readable(m.atom)
  }

  /** What follows the path. */
  function Remainder(a: Atom): string {
    if a.op == PR then "pr" else OpWord(a.op) + " " + a.value
  }

  lemma LabelRemainder(a: Atom)
    ensures AtomString(a) == a.path + " " + Remainder(a)
    ensures ToLower(AtomString(a))[|a.path| + 1..] == ToLower(Remainder(a))
  {
    if a.op == PR {
      assert a.path + " pr" == a.path + " " + "pr";
    } else {
      assert AtomString(a) == a.path + " " + (OpWord(a.op) + " " + a.value);
    }
    LowerCat(a.path + " ", Remainder(a));
  }

  /** The first blank ends the path. */
  lemma BlankAfterPath(a: Atom, i: nat)
    requires ' ' !in a.path && i < |AtomString(a)| && AtomString(a)[i] == ' '
    ensures i >= |a.path|
  {
    assert forall k :: 0 <= k < |a.path| ==> AtomString(a)[k] == a.path[k];
  }

  lemma LabelPath(a: Atom, b: Atom)
    requires ' ' !in a.path && ' ' !in b.path && ToLower(AtomString(a)) == ToLower(AtomString(b))
    ensures ToLower(a.path) == ToLower(b.path)
  {
    var s, t := AtomString(a), AtomString(b);
    LowerKeeps(s, t, ' ');
    assert s[|a.path|] == ' ' && t[|b.path|] == ' ';
    BlankAfterPath(a, |b.path|);
    BlankAfterPath(b, |a.path|);
    LabelStart(a);
    LabelStart(b);
  }

  lemma LabelStart(a: Atom)
    ensures |a.path| < |AtomString(a)| && ToLower(AtomString(a))[..|a.path|] == ToLower(a.path)
  {
    LabelRemainder(a);
    assert a.path + " " + Remainder(a) == a.path + (" " + Remainder(a));
    LowerCat(a.path, " " + Remainder(a));
  }

  lemma RemainderInjective(a: Atom, b: Atom)
    requires ToLower(Remainder(a)) == ToLower(Remainder(b))
    ensures a.op == b.op && (a.op != PR ==> ToLower(a.value) == ToLower(b.value))
  {
    var s, t := Remainder(a), Remainder(b);
    assert |ToLower(s)| == |s| && |ToLower(t)| == |t|;
    assert |OpWord(a.op)| == 2 && |OpWord(b.op)| == 2;
    assert ToLower(s)[0] == s[0] == OpWord(a.op)[0] && ToLower(s)[1] == s[1] == OpWord(a.op)[1];
    assert ToLower(t)[0] == t[0] == OpWord(b.op)[0] && ToLower(t)[1] == t[1] == OpWord(b.op)[1];
    if a.op != PR && b.op != PR {
      assert s[3..] == a.value && t[3..] == b.value;
      assert ToLower(s)[3..] == ToLower(a.value) && ToLower(t)[3..] == ToLower(b.value);
    }
  }

  /** Labels that agree up to letter case come of casings of one comparison. */
  lemma LabelInjective(a: Atom, b: Atom)
    requires Readable(a) && Readable(b) && ToLower(AtomString(a)) == ToLower(AtomString(b))
    ensures CaseVariant(a, b)
  {
    LabelPath(a, b);
    assert |ToLower(a.path)| == |a.path| && |ToLower(b.path)| == |b.path|;
    LabelRemainder(a);
    LabelRemainder(b);
    RemainderInjective(a, b);
  }

  lemma FoundVariant(l: Lit, ls: seq<Lit>)
    requires Readable(l.atom) && AllReadable(ls) && LabelCount(ls, Label(l), l.neg) > 0
    ensures CaseVariant(l.atom, Find(ls, l).atom) && Find(ls, l) == Lit(Find(ls, l).atom, l.neg)
  {
    FindFound(ls, l);
    LabelInjective(l.atom, Find(ls, l).atom);
  }

  predicate Readied(es: seq<Lit>, ls: seq<Lit>) {
    AllReadable(es) && AllFound(es, ls)
  }

  predicate EachFound(es: seq<Lit>, zs: seq<Lit>, ls: seq<Lit>) {
    |zs| == |es| && forall i :: 0 <= i < |es| ==> zs[i] == Find(ls, es[i])
  }

  lemma ReadiedParts(a: seq<Lit>, b: seq<Lit>, ls: seq<Lit>)
    requires Readied(a + b, ls)
    ensures Readied(a, ls) && Readied(b, ls)
  {
    var c := a + b;
    forall i | 0 <= i < |a| ensures LabelCount(ls, Label(a[i]), a[i].neg) > 0 {
      assert c[i] == a[i];
    }
    forall i | 0 <= i < |b| ensures LabelCount(ls, Label(b[i]), b[i].neg) > 0 {
      assert c[|a| + i] == b[i];
    }
    assert forall m :: m in a || m in b ==> m in c;
  }

  lemma EachFoundCat(a: seq<Lit>, b: seq<Lit>, x: seq<Lit>, y: seq<Lit>, ls: seq<Lit>)
    requires EachFound(a, x, ls) && EachFound(b, y, ls)
    ensures EachFound(a + b, x + y, ls)
  {
    forall i | 0 <= i < |a + b| ensures (x + y)[i] == Find(ls, (a + b)[i]) {
      if i < |a| {
        assert (a + b)[i] == a[i] && (x + y)[i] == x[i];
      } else {
        assert (a + b)[i] == b[i - |a|] && (x + y)[i] == y[i - |a|];
      }
    }
  }

  lemma {:induction false} RecaseLits(e: Expr, ls: seq<Lit>)
    requires Readied(Lits(e), ls) && AllReadable(ls)
    ensures Recased(e, Recase(e, ls)) && EachFound(Lits(e), Lits(Recase(e, ls)), ls)
  {
    match e
    case Attr(a) => RecaseOne(Lit(a, false), ls);
    case Not(x) =>
      if x.Attr? {
        RecaseOne(Lit(x.atom, true), ls);
      } else {
        RecaseLits(x, ls);
      }
    case Prec(x) => RecaseLits(x, ls);
    case Logic(_, l, r) =>
      ReadiedParts(Lits(l), Lits(r), ls);
      RecaseLits(l, ls);
      RecaseLits(r, ls);
      EachFoundCat(Lits(l), Lits(r), Lits(Recase(l, ls)), Lits(Recase(r, ls)), ls);
  }

  lemma RecaseOne(l: Lit, ls: seq<Lit>)
    requires Readied([l], ls) && AllReadable(ls)
    ensures CaseVariant(l.atom, Find(ls, l).atom) && Find(ls, l) == Lit(Find(ls, l).atom, l.neg)
    ensures EachFound([l], [Find(ls, l)], ls)
  {
    assert [l][0] == l && l in [l];
    FoundVariant(l, ls);
  }

  // ----- lists of the same literals

  lemma {:induction false} CountPermuted(a: seq<Lit>, b: seq<Lit>, s: string)
    requires multiset(a) == multiset(b)
    ensures LitCount(a, s) == LitCount(b, s)
    decreases |a|
  {
    if a == [] {
      assert |multiset(b)| == 0;
      assert b == [];
    } else {
      assert a[0] in multiset(b);
      var i :| 0 <= i < |b| && b[i] == a[0];
      assert a == [a[0]] + a[1..];
      assert b == b[..i] + ([b[i]] + b[i + 1..]);
      assert multiset(b[..i] + b[i + 1..]) == multiset(b) - multiset{a[0]};
      assert multiset(a[1..]) == multiset(a) - multiset{a[0]};
      CountPermuted(a[1..], b[..i] + b[i + 1..], s);
      LitCat(b[..i], b[i + 1..], s);
      LitCat(b[..i], [b[i]] + b[i + 1..], s);
    }
  }

  predicate NoTwice(ls: seq<Lit>) {
    forall i, j :: 0 <= i < j < |ls| ==> ls[i] != ls[j]
  }

  lemma {:induction false} OnceEach(ls: seq<Lit>, l: Lit)
    requires NoTwice(ls)
    ensures multiset(ls)[l] == if l in ls then 1 else 0
  {
    if ls == [] {
    } else {
      OnceEach(ls[1..], l);
      assert ls == [ls[0]] + ls[1..];
      assert multiset(ls)[l] == multiset([ls[0]])[l] + multiset(ls[1..])[l];
    }
  }

  lemma SameElements(a: seq<Lit>, b: seq<Lit>)
    requires NoTwice(a) && NoTwice(b) && forall l :: l in a <==> l in b
    ensures multiset(a) == multiset(b)
  {
    forall l ensures multiset(a)[l] == multiset(b)[l] {
      OnceEach(a, l);
      OnceEach(b, l);
    }
  }

  lemma {:induction false} DistinctCounts(ls: seq<Lit>, s: string)
    ensures Distinct(ls) ==> LabelCount(ls, s, true) + LabelCount(ls, s, false) <= 1
  {
    if ls == [] {
    } else if Distinct(ls) {
      assert forall i :: 0 <= i < |ls| - 1 ==> ls[1..][i] == ls[i + 1];
      DistinctCounts(ls[1..], s);
      LabelFound(ls[1..], s, true);
      LabelFound(ls[1..], s, false);
    }
  }

  lemma {:induction false} CountsDistinct(ls: seq<Lit>)
    requires forall s :: LabelCount(ls, s, true) + LabelCount(ls, s, false) <= 1
    ensures Distinct(ls)
  {
    if ls == [] {
    } else {
      forall s ensures LabelCount(ls[1..], s, true) + LabelCount(ls[1..], s, false) <= 1 {
        assert LabelCount(ls, s, true) + LabelCount(ls, s, false) <= 1;
      }
      CountsDistinct(ls[1..]);
      forall i | 0 < i < |ls| ensures Label(ls[0]) != Label(ls[i]) {
        assert ls[1..][i - 1] == ls[i];
        LabelFound(ls[1..], Label(ls[i]), ls[i].neg);
        assert LabelCount(ls, Label(ls[i]), true) + LabelCount(ls, Label(ls[i]), false) <= 1;
      }
      forall i, j | 0 < i < j < |ls| ensures Label(ls[i]) != Label(ls[j]) {
        assert ls[1..][i - 1] == ls[i] && ls[1..][j - 1] == ls[j];
      }
    }
  }

  // ----- an alike rule is, up to order, a casing of the rule

  /** The rule with its comparisons cased as in an alike one has that one's literals. */
  lemma RecasePermutes(x: Expr, y: Expr)
    requires Alike(x, y) && Distinct(Lits(x)) && AllReadable(Lits(x)) && AllReadable(Lits(y))
    ensures Recased(x, Recase(x, Lits(y))) && multiset(Lits(Recase(x, Lits(y)))) == multiset(Lits(y))
  {
    var z := Recase(x, Lits(y));
    AlikeFound(x, y);
    AlikeDistinct(x, y);
    RecaseLits(x, Lits(y));
    RecasedLits(x, z);
    forall l | l in Lits(z) ensures l in Lits(y) {
      var i :| 0 <= i < |Lits(z)| && Lits(z)[i] == l;
      FindFound(Lits(y), Lits(x)[i]);
    }
    forall l | l in Lits(y) ensures l in Lits(z) {
      Covered(x, y, l);
    }
    LabelsApart(Lits(x), Lits(z));
    SameElements(Lits(z), Lits(y));
  }

  lemma AlikeFound(x: Expr, y: Expr)
    requires Alike(x, y)
    ensures AllFound(Lits(x), Lits(y))
  {
    forall i | 0 <= i < |Lits(x)| ensures LabelCount(Lits(y), Label(Lits(x)[i]), Lits(x)[i].neg) > 0 {
      LabelFound(Lits(x), Label(Lits(x)[i]), Lits(x)[i].neg);
    }
  }

  lemma AlikeDistinct(x: Expr, y: Expr)
    requires Alike(x, y) && Distinct(Lits(x))
    ensures Distinct(Lits(y))
  {
    forall s ensures LabelCount(Lits(y), s, true) + LabelCount(Lits(y), s, false) <= 1 {
      DistinctCounts(Lits(x), s);
    }
    CountsDistinct(Lits(y));
  }

  lemma LabelsApart(ls: seq<Lit>, ms: seq<Lit>)
    requires Distinct(ls) && LitsAlike(ls, ms)
    ensures NoTwice(ms)
  {
    forall i, j | 0 <= i < j < |ms| ensures ms[i] != ms[j] {
      assert Label(ls[i]) != Label(ls[j]);
    }
  }

  lemma Covered(x: Expr, y: Expr, l: Lit)
    requires Alike(x, y) && Distinct(Lits(y)) && AllReadable(Lits(x)) && AllReadable(Lits(y)) && l in Lits(y)
    ensures l in Lits(Recase(x, Lits(y)))
  {
    LabelFound(Lits(y), Label(l), l.neg);
    LabelFound(Lits(x), Label(l), l.neg);
    AlikeFound(x, y);
    RecaseLits(x, Lits(y));
    var i :| 0 <= i < |Lits(x)| && Label(Lits(x)[i]) == Label(l) && Lits(x)[i].neg == l.neg;
    var m := Find(Lits(y), Lits(x)[i]);
    FindFound(Lits(y), Lits(x)[i]);
    SameLabelSame(Lits(y), l, m);
    assert Lits(Recase(x, Lits(y)))[i] == l;
  }

  lemma SameLabelSame(ls: seq<Lit>, l: Lit, m: Lit)
    requires Distinct(ls) && l in ls && m in ls && Label(l) == Label(m)
    ensures l == m
  {
    var i :| 0 <= i < |ls| && ls[i] == l;
    var j :| 0 <= j < |ls| && ls[j] == m;
  }

  /** Trees with the same literals in some order, and as many of everything else, sort alike. */
  lemma PermutedSameKey(z: Expr, y: Expr)
    requires multiset(Lits(z)) == multiset(Lits(y)) && Nots(z) == Nots(y) && forall op :: Ops(z, op) == Ops(y, op)
    ensures Key(z) == Key(y)
  {
    forall s ensures CountOf(z, s) == CountOf(y, s) {
      CountSplit(z, s);
      CountSplit(y, s);
      CountPermuted(Lits(z), Lits(y), s);
    }
    SameLabelsSameKey(z, y);
  }

  /** Where no other casing sorts alike, an equal rule has the very same literals. */
  lemma FixedLits(x: Expr, y: Expr)
    requires Key(x) == Key(y) && PlainPaths(x) && PlainPaths(y) && ParsedTree(x, true) && ParsedTree(y, true)
    requires Distinct(Lits(x)) && CaseFixed(x)
    ensures multiset(Lits(x)) == multiset(Lits(y)) && Alike(x, y)
  {
    SameKeyAlike(x, y);
    LitsKnown(x, true);
    LitsKnown(y, true);
    AlikeFixedLits(x, y);
  }

  lemma AlikeFixedLits(x: Expr, y: Expr)
    requires Alike(x, y) && AllReadable(Lits(x)) && AllReadable(Lits(y)) && Key(x) == Key(y)
    requires Distinct(Lits(x)) && CaseFixed(x)
    ensures multiset(Lits(x)) == multiset(Lits(y))
  {
    var z := Recase(x, Lits(y));
    RecasePermutes(x, y);
    RecasedCounts(x, z);
    PermutedSameKey(z, y);
    assert z == x;
  }

  lemma SameMembers(a: seq<Lit>, b: seq<Lit>, l: Lit)
    requires multiset(a) == multiset(b)
    ensures l in a <==> l in b
  {
    assert l in a <==> l in multiset(a);
    assert l in b <==> l in multiset(b);
  }

  lemma SameMembersEval(op: LogicOp, a: seq<Lit>, b: seq<Lit>, v: Valuation)
    requires multiset(a) == multiset(b)
    ensures LitsEval(op, a, v) == LitsEval(op, b, v)
  {
    forall l ensures l in a <==> l in b {
      SameMembers(a, b, l);
    }
  }

  lemma FixedMeaning(x: Expr, y: Expr, v: Valuation)
    requires multiset(Lits(x)) == multiset(Lits(y)) && Alike(x, y)
    requires LiteralRun(x, And) || LiteralRun(x, Or) || |Lits(x)| == 1
    ensures Eval(x, v) == Eval(y, v)
  {
    if |Lits(x)| == 1 {
      FixedSingle(x, y, v);
    } else {
      FixedRun(x, y, if LiteralRun(x, And) then And else Or, v);
    }
  }

  lemma FixedSingle(x: Expr, y: Expr, v: Valuation)
    requires multiset(Lits(x)) == multiset(Lits(y)) && Alike(x, y) && |Lits(x)| == 1
    ensures Eval(x, v) == Eval(y, v)
  {
    AlikeSingle(x, y);
    SameMembers(Lits(x), Lits(y), Lits(x)[0]);
    SingleEval(x, v);
    SingleEval(y, v);
  }

  lemma FixedRun(x: Expr, y: Expr, op: LogicOp, v: Valuation)
    requires multiset(Lits(x)) == multiset(Lits(y)) && Alike(x, y) && LiteralRun(x, op) && |Lits(x)| != 1
    ensures Eval(x, v) == Eval(y, v)
  {
    RunHasNoOther(x, op);
    CountsMakeRun(y, op);
    RunEval(x, op, v);
    RunEval(y, op, v);
    SameMembersEval(op, Lits(x), Lits(y), v);
  }

  // ----- the exact statement

  /** Whatever compares equal to `c` means the same to every request. */
  ghost predicate TrueIsRight(c: ConditionInfo) {
    forall d, v :: Equals(c, Some(d)) && PlainRule(d.rule) ==> MeansSame(c, d, v)
  }

  lemma CasingRule(c: ConditionInfo, y: Expr) returns (d: ConditionInfo)
    requires ParseTokens(c.rule).Ok? && PlainRule(c.rule)
    requires Recased(ParseTokens(c.rule).value, y) && Key(y) == Key(ParseTokens(c.rule).value)
    ensures ParseTokens(d.rule) == Ok(y) && PlainRule(d.rule) && Equals(c, Some(d))
  {
    var x := ParseTokens(c.rule).value;
    RunShape(c.rule, START);
    RecasedParsed(x, y, true);
    d := RuleOf(y, c.action);
    RuleReads(y, c.action);
  }

  /** Main result, for every accepted rule whose comparisons are distinct up to letter case and every
      request: all that compares equal to it means the same exactly when it is a run of one operator
      over possibly negated comparisons or holds a single comparison, and no other casing of its
      words sorts like its own. */
  lemma EqualsExact(c: ConditionInfo)
    requires ParseTokens(c.rule).Ok? && PlainRule(c.rule) && Distinct(Lits(ParseTokens(c.rule).value))
    ensures var x := ParseTokens(c.rule).value;
      TrueIsRight(c) <==> (LiteralRun(x, And) || LiteralRun(x, Or) || |Lits(x)| == 1) && CaseFixed(x)
  {
    var x := ParseTokens(c.rule).value;
    RunShape(c.rule, START);
    CaseBlindExact(c);
    if !CaseFixed(x) {
      var y :| Recased(x, y) && Key(y) == Key(x) && y != x;
      var d := CasingRule(c, y);
      var v := CasingsDiffer(x, y);
      assert !MeansSame(c, d, v);
    } else if LiteralRun(x, And) || LiteralRun(x, Or) || |Lits(x)| == 1 {
      forall d, v | Equals(c, Some(d)) && PlainRule(d.rule) ensures MeansSame(c, d, v) {
        if c.rule != d.rule {
          RunShape(d.rule, START);
          FixedLits(x, ParseTokens(d.rule).value);
          FixedMeaning(x, ParseTokens(d.rule).value, v);
        }
      }
    } else {
      WrongSomewhere(c);
    }
  }

  lemma WrongSomewhere(c: ConditionInfo)
    requires !RightCaseBlind(c)
    ensures !TrueIsRight(c)
  {
    var d, v, val :| Equals(c, Some(d)) && PlainRule(d.rule) && CaseBlind(v, val) && !MeansSame(c, d, v);
  }

  // ----- a single comparison

  predicate IsLetter(c: char) {
    'a' <= c <= 'z' || 'A' <= c <= 'Z'
  }

  predicate HasLetter(s: string) {
    exists i :: 0 <= i < |s| && IsLetter(s[i])
  }

  function OtherCase(c: char): char {
    if 'a' <= c <= 'z' then c - 'a' + 'A' else if 'A' <= c <= 'Z' then c - 'A' + 'a' else c
  }

  lemma Flip(s: string) returns (t: string)
    requires HasLetter(s)
    ensures ToLower(t) == ToLower(s) && t != s
  {
    var i :| 0 <= i < |s| && IsLetter(s[i]);
    t := s[i := OtherCase(s[i])];
    assert t[i] != s[i];
    assert forall k :: 0 <= k < |s| ==> LowerChar(t[k]) == LowerChar(s[k]);
  }

  lemma NoLetterNoFlip(s: string, t: string)
    requires !HasLetter(s) && ToLower(t) == ToLower(s)
    ensures t == s
  {
    assert |ToLower(t)| == |t| && |ToLower(s)| == |s|;
    forall i | 0 <= i < |s| ensures t[i] == s[i] {
      assert ToLower(t)[i] == LowerChar(t[i]) && ToLower(s)[i] == LowerChar(s[i]) && !IsLetter(s[i]);
    }
  }

  /** For a rule of one comparison: a true is always right exactly when there is no letter in its
      path and its value. */
  lemma OneComparisonExact(c: ConditionInfo, a: Atom)
    requires ParseTokens(c.rule) == Ok(Attr(a)) && PlainRule(c.rule)
    ensures TrueIsRight(c) <==> !HasLetter(a.path) && !HasLetter(a.value)
  {
    EqualsExact(c);
    if HasLetter(a.path) {
      var p := Flip(a.path);
      AttrKey(a, a.(path := p));
    } else if HasLetter(a.value) {
      var w := Flip(a.value);
      AttrKey(a, a.(value := w));
    } else {
      forall y | Recased(Attr(a), y) ensures y == Attr(a) {
        NoLetterNoFlip(a.path, y.atom.path);
        NoLetterNoFlip(a.value, y.atom.value);
      }
    }
  }

  lemma AttrKey(a: Atom, b: Atom)
    requires CaseVariant(a, b) && a != b
    ensures !CaseFixed(Attr(a))
  {
    VariantWords(a, b);
    assert Labels(Attr(a)) == [AtomString(a)] && Labels(Attr(b)) == [AtomString(b)];
    SortOne(AtomString(a));
    SortOne(AtomString(b));
    assert FoldAll([AtomString(a)]) == FoldAll([AtomString(b)]);
    assert Recased(Attr(a), Attr(b)) && Key(Attr(b)) == Key(Attr(a));
  }

  lemma SortOne(s: string)
    ensures SortStrings([s]) == [s]
  {
    SortedUnique(SortStrings([s]), [s]);
  }
}
