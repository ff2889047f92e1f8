/** When is a true from ConditionInfo.Equals right, letter case aside? Exactly for rules that are a
    run of one operator over possibly negated comparisons, and for rules of a single comparison. */
module EqualsRuns {
  import opened Collections
  import opened Idql
  import opened Strings
  import opened Parser
  import opened ParserFold
  import opened ParserRetract
  import opened ConditionEquals

  // ----- what the labels of a rule count

  function OneLit(l: Lit, s: string): nat {
    var t := AtomString(l.atom);
    One(t == s) + (if l.neg then One(NotLabel(t) == s) else 0)
  }

  function LitCount(ls: seq<Lit>, s: string): nat {
    if ls == [] then 0 else OneLit(ls[0], s) + LitCount(ls[1..], s)
  }

  lemma {:induction false} LitCat(a: seq<Lit>, b: seq<Lit>, s: string)
    ensures LitCount(a + b, s) == LitCount(a, s) + LitCount(b, s)
  {
    if a == [] {
      assert a + b == b;
    } else {
      assert (a + b)[1..] == a[1..] + b;
      LitCat(a[1..], b, s);
    }
  }

  lemma LitSingle(l: Lit, s: string)
    ensures LitCount([l], s) == OneLit(l, s)
  {
    assert [l][1..] == [];
    assert LitCount([], s) == 0;
  }

  function If(b: bool, n: nat): nat {
    if b then n else 0
  }

  /** Comparisons, `not`s and operators are all that the labels count. */
  lemma {:induction false} CountSplit(e: Expr, s: string)
    ensures CountOf(e, s) == LitCount(Lits(e), s) + If("not" == s, Nots(e))
      + If("and" == s, Ops(e, And)) + If("or" == s, Ops(e, Or))
  {
    match e
    case Attr(a) => LitSingle(Lit(a, false), s);
    case Not(x) =>
      if x.Attr? {
        LitSingle(Lit(x.atom, true), s);
      } else {
        CountSplit(x, s);
      }
    case Prec(x) => CountSplit(x, s);
    case Logic(_, l, r) =>
      CountSplit(l, s);
      CountSplit(r, s);
      LitCat(Lits(l), Lits(r), s);
  }

  lemma {:induction false} LitsOps(e: Expr)
    ensures |Lits(e)| == Ops(e, And) + Ops(e, Or) + 1
  {
    match e
    case Attr(_) =>
    case Not(x) => if !x.Attr? { LitsOps(x); }
    case Prec(x) => LitsOps(x);
    case Logic(_, l, r) => LitsOps(l); LitsOps(r);
  }

  lemma SameCountsSameKey(x: Expr, y: Expr)
    requires forall s :: LitCount(Lits(x), s) == LitCount(Lits(y), s)
    requires Nots(x) == Nots(y) && forall op :: Ops(x, op) == Ops(y, op)
    ensures Key(x) == Key(y)
  {
    forall s ensures CountOf(x, s) == CountOf(y, s) {
      CountSplit(x, s);
      CountSplit(y, s);
    }
    SameLabelsSameKey(x, y);
  }

  // ----- comparisons that can be given any truth

  predicate Distinct(ls: seq<Lit>) {
    forall i, j :: 0 <= i < j < |ls| ==> Label(ls[i]) != Label(ls[j])
  }

  /** The valuation that makes exactly the wanted comparisons true. */
  function Truths(ls: seq<Lit>, want: seq<bool>): set<string>
    requires |ls| == |want|
  {
    set i | 0 <= i < |ls| && want[i] :: Label(ls[i])
  }

  function ByLabel(val: string -> bool): Valuation {
    a => val(ToLower(AtomString(a)))
  }

  lemma TruthsExact(ls: seq<Lit>, want: seq<bool>, i: nat)
    requires |ls| == |want| && Distinct(ls) && i < |ls|
    ensures Label(ls[i]) in Truths(ls, want) <==> want[i]
  {
    if Label(ls[i]) in Truths(ls, want) {
      var j :| 0 <= j < |ls| && want[j] && Label(ls[j]) == Label(ls[i]);
    }
  }

  lemma Assign(ls: seq<Lit>, want: seq<bool>) returns (v: Valuation, val: string -> bool)
    requires |ls| == |want| && Distinct(ls)
    ensures CaseBlind(v, val) && forall i :: 0 <= i < |ls| ==> v(ls[i].atom) == want[i]
  {
    var trues := Truths(ls, want);
    val := s => s in trues;
    v := ByLabel(val);
    forall i | 0 <= i < |ls| ensures v(ls[i].atom) == want[i] {
      TruthsExact(ls, want, i);
    }
  }

  // ----- plain comparisons first, then negated ones

  function Only(ls: seq<Lit>, neg: bool): seq<Lit> {
    if ls == [] then [] else (if ls[0].neg == neg then [ls[0]] else []) + Only(ls[1..], neg)
  }

  function Arranged(ls: seq<Lit>): (r: seq<Lit>)
    ensures |r| == |ls|
  {
    OnlyCounts(ls, "");
    Only(ls, false) + Only(ls, true)
  }

  lemma {:induction false} OnlyCounts(ls: seq<Lit>, s: string)
    ensures LitCount(Only(ls, false), s) + LitCount(Only(ls, true), s) == LitCount(ls, s)
    ensures |Only(ls, false)| + |Only(ls, true)| == |ls|
  {
    if ls == [] {
    } else {
      OnlyCounts(ls[1..], s);
      LitCat([ls[0]], Only(ls[1..], ls[0].neg), s);
      LitSingle(ls[0], s);
      assert [] + Only(ls[1..], !ls[0].neg) == Only(ls[1..], !ls[0].neg);
    }
  }

  lemma {:induction false} OnlyKeeps(ls: seq<Lit>, neg: bool)
    requires Distinct(ls)
    ensures Distinct(Only(ls, neg))
    ensures forall m :: m in Only(ls, neg) ==> m in ls && m.neg == neg
  {
    if ls == [] {
    } else {
      OnlyKeeps(ls[1..], neg);
      var t := Only(ls[1..], neg);
      forall j | 0 <= j < |t| ensures Label(ls[0]) != Label(t[j]) {
        assert t[j] in ls[1..];
        var i :| 0 < i < |ls| && ls[i] == t[j];
      }
    }
  }

  lemma ArrangedCounts(ls: seq<Lit>, s: string)
    ensures LitCount(Arranged(ls), s) == LitCount(ls, s)
  {
    LitCat(Only(ls, false), Only(ls, true), s);
    OnlyCounts(ls, s);
  }

  lemma ArrangedOrder(ls: seq<Lit>)
    requires Distinct(ls)
    ensures forall m :: m in Arranged(ls) ==> m in ls
    ensures forall i, j :: 0 <= i < j < |ls| && Arranged(ls)[i].neg ==> Arranged(ls)[j].neg
  {
    var p, n := Only(ls, false), Only(ls, true);
    OnlyKeeps(ls, false);
    OnlyKeeps(ls, true);
    assert forall i :: 0 <= i < |p| ==> p[i] in p;
    assert forall i :: 0 <= i < |n| ==> n[i] in n;
  }

  lemma ArrangedDistinct(ls: seq<Lit>)
    requires Distinct(ls)
    ensures Distinct(Arranged(ls))
  {
    var p, n := Only(ls, false), Only(ls, true);
    OnlyKeeps(ls, false);
    OnlyKeeps(ls, true);
    forall i, j | 0 <= i < |p| && 0 <= j < |n| ensures Label(p[i]) != Label(n[j]) {
      KindsApart(ls, p[i], n[j]);
    }
  }

  lemma KindsApart(ls: seq<Lit>, a: Lit, b: Lit)
    requires Distinct(ls) && a in ls && b in ls && a.neg != b.neg
    ensures Label(a) != Label(b)
  {
    var i :| 0 <= i < |ls| && ls[i] == a;
    var j :| 0 <= j < |ls| && ls[j] == b;
  }

  // ----- rules with given labels

  function Base(l: Lit): Expr {
    if l.neg then Not(Attr(l.atom)) else Prec(Attr(l.atom))
  }

  function Nest(k: nat, e: Expr): Expr {
    if k == 0 then e else Not(Nest(k - 1, e))
  }

  function LastUnit(k: nat, l: Lit): Expr {
    if k == 0 && !l.neg then Attr(l.atom) else Nest(k, Base(l))
  }

  /** Units joined from the left by the given operators. */
  function Spine(units: seq<Expr>, ops: seq<LogicOp>): Expr
    requires |units| == |ops| + 1
    decreases |ops|
  {
    if ops == [] then units[0]
    else Logic(ops[|ops| - 1], Spine(units[..|units| - 1], ops[..|ops| - 1]), units[|units| - 1])
  }

  /** The comparisons as units, with `kPrev` `not`s before the last but one and `kLast` before the last. */
  function Units(ls: seq<Lit>, kPrev: nat, kLast: nat): seq<Expr>
    requires |ls| >= 2
  {
    seq(|ls|, i requires 0 <= i < |ls| =>
      if i == |ls| - 1 then LastUnit(kLast, ls[i]) else Nest(if i == |ls| - 2 then kPrev else 0, Base(ls[i])))
  }

  lemma {:induction false} NestShape(k: nat, l: Lit)
    ensures Lits(Nest(k, Base(l))) == [l] && Nots(Nest(k, Base(l))) == k
    ensures forall op :: Ops(Nest(k, Base(l)), op) == 0
    ensures !Nest(k, Base(l)).Logic? && !Nest(k, Base(l)).Attr?
    ensures WfAtom(l.atom) ==> ParsedTree(Nest(k, Base(l)), false) && ParsedTree(Nest(k, Base(l)), true)
    ensures Nest(k, Base(l)).Prec? <==> k == 0 && !l.neg
  {
    if k == 0 {
    } else {
      NestShape(k - 1, l);
    }
  }

  predicate Odd(k: nat) {
    k % 2 == 1
  }

  lemma {:induction false} NestEval(k: nat, e: Expr, v: Valuation)
    ensures Eval(Nest(k, e), v) == (Eval(e, v) != Odd(k))
  {
    if k == 0 {
    } else {
      NestEval(k - 1, e, v);
    }
  }

  /** What the parser asks of the units of one level. */
  predicate Accepted(units: seq<Expr>) {
    && units != []
    && (forall i :: 0 <= i < |units| ==> !units[i].Logic? && ParsedTree(units[i], i == |units| - 1))
    && (forall i, j :: 0 <= i < j < |units| && units[i].Not? ==> !units[j].Prec?)
  }

  lemma {:induction false} SpineParsed(units: seq<Expr>, ops: seq<LogicOp>, last: bool)
    requires |units| == |ops| + 1
    requires forall i :: 0 <= i < |units| ==> !units[i].Logic? && ParsedTree(units[i], last && i == |units| - 1)
    requires forall i, j :: 0 <= i < j < |units| && units[i].Not? ==> !units[j].Prec?
    ensures ParsedTree(Spine(units, ops), last)
    ensures HasNot(Spine(units, ops)) ==> exists i :: 0 <= i < |units| && units[i].Not?
    decreases |ops|
  {
    if ops == [] {
      assert HasNot(units[0]) ==> units[0].Not?;
    } else {
      var init := units[..|units| - 1];
      SpineParsed(init, ops[..|ops| - 1], false);
      assert forall i :: 0 <= i < |init| ==> init[i] == units[i];
      assert HasNot(units[|units| - 1]) ==> units[|units| - 1].Not?;
    }
  }

  function OpCount(ops: seq<LogicOp>, op: LogicOp): nat {
    if ops == [] then 0 else OpCount(ops[..|ops| - 1], op) + One(ops[|ops| - 1] == op)
  }

  function Sum(ks: seq<nat>): nat {
    if ks == [] then 0 else Sum(ks[..|ks| - 1]) + ks[|ks| - 1]
  }

  lemma {:induction false} SpineCounts(units: seq<Expr>, ops: seq<LogicOp>, ls: seq<Lit>, ks: seq<nat>)
    requires |units| == |ops| + 1 == |ls| == |ks|
    requires forall i :: 0 <= i < |units| ==> Lits(units[i]) == [ls[i]] && Nots(units[i]) == ks[i]
    requires forall i, op :: 0 <= i < |units| ==> Ops(units[i], op) == 0
    ensures Lits(Spine(units, ops)) == ls && Nots(Spine(units, ops)) == Sum(ks)
    ensures forall op :: Ops(Spine(units, ops), op) == OpCount(ops, op)
    decreases |ops|
  {
    var n := |units| - 1;
    if ops == [] {
      assert ls == [ls[0]];
      assert ks[..0] == [];
    } else {
      SpineCounts(units[..n], ops[..n - 1], ls[..n], ks[..n]);
      assert ls == ls[..n] + [ls[n]];
    }
  }

  function Places(n: nat, kPrev: nat, kLast: nat): seq<nat>
    requires n >= 2
  {
    seq(n - 2, i => 0) + [kPrev, kLast]
  }

  lemma {:induction false} SumZeros(n: nat)
    ensures Sum(seq(n, i => 0)) == 0
  {
    if n == 0 {
    } else {
      assert seq(n, i => 0)[..n - 1] == seq(n - 1, i => 0);
      SumZeros(n - 1);
    }
  }

  lemma SumPlaces(n: nat, kPrev: nat, kLast: nat)
    requires n >= 2
    ensures Sum(Places(n, kPrev, kLast)) == kPrev + kLast
  {
    var z := seq(n - 2, i => 0);
    var ks := Places(n, kPrev, kLast);
    assert ks[..n - 1] == z + [kPrev] && (z + [kPrev])[..n - 2] == z;
    SumZeros(n - 2);
  }

  lemma UnitShape(ls: seq<Lit>, kPrev: nat, kLast: nat, i: nat)
    requires |ls| >= 2 && i < |ls|
    ensures var u := Units(ls, kPrev, kLast)[i];
      && Lits(u) == [ls[i]] && Nots(u) == Places(|ls|, kPrev, kLast)[i] && !u.Logic?
      && (forall op :: Ops(u, op) == 0)
      && (WfAtom(ls[i].atom) ==> ParsedTree(u, i == |ls| - 1))
      && (u.Prec? ==> !ls[i].neg && i < |ls| - 1)
      && (u.Not? && i < |ls| - 2 ==> ls[i].neg)
  {
    NestShape(Places(|ls|, kPrev, kLast)[i], ls[i]);
  }

  /** An accepted tree with the labels of `x` and with its comparisons. */
  predicate Variant(x: Expr, y: Expr) {
    ParsedTree(y, true) && Key(y) == Key(x) && forall m :: m in Lits(y) ==> m in Lits(x)
  }

  predicate AllWf(ls: seq<Lit>) {
    forall m :: m in ls ==> WfAtom(m.atom)
  }

  predicate OpsFit(x: Expr, ops: seq<LogicOp>) {
    |ops| == |Lits(x)| - 1 && forall op :: OpCount(ops, op) == Ops(x, op)
  }

  /** The comparisons of `x` with the operators and the `not`s before the last two units rearranged. */
  function Rearranged(x: Expr, ops: seq<LogicOp>, kPrev: nat, kLast: nat): Expr
    requires |Lits(x)| >= 2 && |ops| == |Lits(x)| - 1
  {
    Spine(Units(Arranged(Lits(x)), kPrev, kLast), ops)
  }

  lemma UnitsAccepted(ls: seq<Lit>, kPrev: nat, kLast: nat)
    requires |ls| >= 2 && AllWf(ls) && forall i, j :: 0 <= i < j < |ls| && ls[i].neg ==> ls[j].neg
    ensures Accepted(Units(ls, kPrev, kLast))
  {
    var units := Units(ls, kPrev, kLast);
    forall i | 0 <= i < |units| ensures !units[i].Logic? && ParsedTree(units[i], i == |units| - 1) {
      UnitShape(ls, kPrev, kLast, i);
      assert ls[i] in ls;
    }
    forall i, j | 0 <= i < j < |units| && units[i].Not? ensures !units[j].Prec? {
      UnitShape(ls, kPrev, kLast, i);
      UnitShape(ls, kPrev, kLast, j);
    }
  }

  lemma UnitsCounts(ls: seq<Lit>, ops: seq<LogicOp>, kPrev: nat, kLast: nat)
    requires |ls| == |ops| + 1 >= 2
    ensures var y := Spine(Units(ls, kPrev, kLast), ops);
      Lits(y) == ls && Nots(y) == kPrev + kLast && forall op :: Ops(y, op) == OpCount(ops, op)
  {
    var units := Units(ls, kPrev, kLast);
    forall i | 0 <= i < |units|
      ensures Lits(units[i]) == [ls[i]] && Nots(units[i]) == Places(|ls|, kPrev, kLast)[i]
      ensures forall op :: Ops(units[i], op) == 0
    {
      UnitShape(ls, kPrev, kLast, i);
    }
    SpineCounts(units, ops, ls, Places(|ls|, kPrev, kLast));
    SumPlaces(|ls|, kPrev, kLast);
  }

  /** Any such arrangement is an accepted rule with the same labels. */
  lemma RearrangedVariant(x: Expr, ops: seq<LogicOp>, kPrev: nat, kLast: nat)
    requires Distinct(Lits(x)) && |Lits(x)| >= 2 && AllWf(Lits(x)) && OpsFit(x, ops) && kPrev + kLast == Nots(x)
    ensures Variant(x, Rearranged(x, ops, kPrev, kLast))
  {
    var ls := Arranged(Lits(x));
    ArrangedOrder(Lits(x));
    UnitsAccepted(ls, kPrev, kLast);
    SpineParsed(Units(ls, kPrev, kLast), ops, true);
    UnitsCounts(ls, ops, kPrev, kLast);
    forall s ensures LitCount(ls, s) == LitCount(Lits(x), s) {
      ArrangedCounts(Lits(x), s);
    }
    SameCountsSameKey(Rearranged(x, ops, kPrev, kLast), x);
  }

  // ----- two such rules that differ in meaning

  function Repeat(n: nat, op: LogicOp): seq<LogicOp> {
    seq(n, i => op)
  }

  lemma {:induction false} CountRepeat(a: seq<LogicOp>, n: nat, op: LogicOp, o: LogicOp)
    ensures OpCount(a + Repeat(n, op), o) == OpCount(a, o) + If(op == o, n)
  {
    if n == 0 {
      assert a + Repeat(0, op) == a;
    } else {
      var t := a + Repeat(n, op);
      assert t[..|t| - 1] == a + Repeat(n - 1, op);
      CountRepeat(a, n - 1, op, o);
    }
  }

  /** All of the one operator, then all of the other. */
  function Sorted2(first: LogicOp, m: nat, n: nat): seq<LogicOp> {
    Repeat(m, first) + Repeat(n, if first == And then Or else And)
  }

  lemma CountSorted2(first: LogicOp, m: nat, n: nat)
    ensures forall o :: OpCount(Sorted2(first, m, n), o) == if o == first then m else n
  {
    forall o ensures OpCount(Sorted2(first, m, n), o) == if o == first then m else n {
      assert [] + Repeat(m, first) == Repeat(m, first);
      CountRepeat([], m, first, o);
      CountRepeat(Repeat(m, first), n, if first == And then Or else And, o);
    }
  }

  /** Units that all have one truth value give it to any rule made of them. */
  lemma {:induction false} SpineUniform(units: seq<Expr>, ops: seq<LogicOp>, b: bool, v: Valuation)
    requires |units| == |ops| + 1 && forall i :: 0 <= i < |units| ==> Eval(units[i], v) == b
    ensures Eval(Spine(units, ops), v) == b
    decreases |ops|
  {
    if ops == [] {
    } else {
      SpineUniform(units[..|units| - 1], ops[..|ops| - 1], b, v);
    }
  }

  lemma UnitEvals(ls: seq<Lit>, kPrev: nat, kLast: nat, i: nat, v: Valuation)
    requires |ls| >= 2 && i < |ls|
    ensures Eval(Units(ls, kPrev, kLast)[i], v) == ((v(ls[i].atom) != ls[i].neg) != Odd(Places(|ls|, kPrev, kLast)[i]))
  {
    NestEval(Places(|ls|, kPrev, kLast)[i], Base(ls[i]), v);
  }

  /** A valuation under which each unit has the wanted truth. */
  lemma AssignUnits(ls: seq<Lit>, kPrev: nat, kLast: nat, want: seq<bool>) returns (v: Valuation, val: string -> bool)
    requires |ls| == |want| >= 2 && Distinct(ls)
    ensures CaseBlind(v, val) && forall i :: 0 <= i < |ls| ==> Eval(Units(ls, kPrev, kLast)[i], v) == want[i]
  {
    var ks := Places(|ls|, kPrev, kLast);
    var atoms := seq(|ls|, i requires 0 <= i < |ls| => (want[i] != Odd(ks[i])) != ls[i].neg);
    v, val := Assign(ls, atoms);
    forall i | 0 <= i < |ls| ensures Eval(Units(ls, kPrev, kLast)[i], v) == want[i] {
      UnitEvals(ls, kPrev, kLast, i, v);
    }
  }

  /** The last operator decides when the last unit is false and the others are true. */
  lemma EndsDiffer(units: seq<Expr>, ops1: seq<LogicOp>, ops2: seq<LogicOp>, v: Valuation)
    requires |units| == |ops1| + 1 == |ops2| + 1 >= 2
    requires ops1[|ops1| - 1] == And && ops2[|ops2| - 1] == Or
    requires forall i :: 0 <= i < |units| ==> Eval(units[i], v) == (i < |units| - 1)
    ensures !Eval(Spine(units, ops1), v) && Eval(Spine(units, ops2), v)
  {
    var n := |units| - 1;
    SpineUniform(units[..n], ops2[..n - 1], true, v);
  }

  /** The operators of `x`, those of one kind first. */
  function OpsOf(x: Expr, first: LogicOp): seq<LogicOp> {
    Sorted2(first, Ops(x, first), Ops(x, if first == And then Or else And))
  }

  lemma OpsOfFit(x: Expr, first: LogicOp)
    ensures OpsFit(x, OpsOf(x, first))
    ensures Ops(x, if first == And then Or else And) > 0 ==>
      OpsOf(x, first)[|OpsOf(x, first)| - 1] == if first == And then Or else And
  {
    LitsOps(x);
    CountSorted2(first, Ops(x, first), Ops(x, if first == And then Or else And));
  }

  /** With both operators: a rule that ends in `and` and one that ends in `or`. */
  lemma MixedPair(x: Expr) returns (y1: Expr, y2: Expr, v: Valuation, val: string -> bool)
    requires Distinct(Lits(x)) && Ops(x, And) > 0 && Ops(x, Or) > 0 && AllWf(Lits(x))
    ensures Variant(x, y1) && Variant(x, y2)
    ensures CaseBlind(v, val) && Eval(y1, v) != Eval(y2, v)
  {
    LitsOps(x);
    OpsOfFit(x, Or);
    OpsOfFit(x, And);
    RearrangedVariant(x, OpsOf(x, Or), 0, Nots(x));
    RearrangedVariant(x, OpsOf(x, And), 0, Nots(x));
    y1, y2 := Rearranged(x, OpsOf(x, Or), 0, Nots(x)), Rearranged(x, OpsOf(x, And), 0, Nots(x));
    v, val := MixedDiffers(Lits(x), OpsOf(x, Or), OpsOf(x, And), Nots(x));
  }

  lemma MixedDiffers(ls: seq<Lit>, ops1: seq<LogicOp>, ops2: seq<LogicOp>, k: nat)
    returns (v: Valuation, val: string -> bool)
    requires |ls| == |ops1| + 1 == |ops2| + 1 >= 2 && Distinct(ls)
    requires ops1[|ops1| - 1] == And && ops2[|ops2| - 1] == Or
    ensures CaseBlind(v, val)
    ensures Eval(Spine(Units(Arranged(ls), 0, k), ops1), v) != Eval(Spine(Units(Arranged(ls), 0, k), ops2), v)
  {
    v, val := AssignArranged(ls, k, seq(|ls| - 1, i => true) + [false]);
    EndsDiffer(Units(Arranged(ls), 0, k), ops1, ops2, v);
  }

  lemma AssignArranged(ls: seq<Lit>, k: nat, want: seq<bool>) returns (v: Valuation, val: string -> bool)
    requires |ls| == |want| >= 2 && Distinct(ls)
    ensures CaseBlind(v, val)
    ensures forall i :: 0 <= i < |ls| ==> Eval(Units(Arranged(ls), 0, k)[i], v) == want[i]
  {
    ArrangedDistinct(ls);
    v, val := AssignUnits(Arranged(ls), 0, k, want);
  }

  /** With a `not` that stands before no comparison: it can be moved from one unit to another. */
  lemma NegatedPair(x: Expr, op: LogicOp) returns (y1: Expr, y2: Expr, v: Valuation, val: string -> bool)
    requires Distinct(Lits(x)) && |Lits(x)| >= 2 && Nots(x) > 0 && Ops(x, if op == And then Or else And) == 0
    requires AllWf(Lits(x))
    ensures Variant(x, y1) && Variant(x, y2)
    ensures CaseBlind(v, val) && Eval(y1, v) != Eval(y2, v)
  {
    var k, ops := Nots(x), OpsOf(x, op);
    OpsAlike(x, op);
    MovedVariants(x, ops);
    y1, y2 := Rearranged(x, ops, 0, k), Rearranged(x, ops, 1, k - 1);
    v, val := MovedPair(Lits(x), ops, op, k);
  }

  lemma MovedVariants(x: Expr, ops: seq<LogicOp>)
    requires Distinct(Lits(x)) && |Lits(x)| >= 2 && AllWf(Lits(x)) && OpsFit(x, ops) && Nots(x) > 0
    ensures Variant(x, Rearranged(x, ops, 0, Nots(x))) && Variant(x, Rearranged(x, ops, 1, Nots(x) - 1))
  {
    RearrangedVariant(x, ops, 0, Nots(x));
    RearrangedVariant(x, ops, 1, Nots(x) - 1);
  }

  lemma OpsAlike(x: Expr, op: LogicOp)
    requires Ops(x, if op == And then Or else And) == 0
    ensures OpsFit(x, OpsOf(x, op)) && forall i :: 0 <= i < |OpsOf(x, op)| ==> OpsOf(x, op)[i] == op
  {
    OpsOfFit(x, op);
  }

  lemma MovedPair(ls: seq<Lit>, ops: seq<LogicOp>, op: LogicOp, k: nat) returns (v: Valuation, val: string -> bool)
    requires |ls| == |ops| + 1 >= 2 && Distinct(ls) && k > 0 && forall i :: 0 <= i < |ops| ==> ops[i] == op
    ensures CaseBlind(v, val)
    ensures Eval(Spine(Units(Arranged(ls), 0, k), ops), v) != Eval(Spine(Units(Arranged(ls), 1, k - 1), ops), v)
  {
    v, val := AssignArranged(ls, k, seq(|ls|, i => op == And));
    MovedDiffers(Arranged(ls), ops, op, k, v);
  }

  lemma MovedDiffers(ls: seq<Lit>, ops: seq<LogicOp>, op: LogicOp, k: nat, v: Valuation)
    requires |ls| == |ops| + 1 >= 2 && k > 0 && forall i :: 0 <= i < |ops| ==> ops[i] == op
    requires forall i :: 0 <= i < |ls| ==> Eval(Units(ls, 0, k)[i], v) == (op == And)
    ensures Eval(Spine(Units(ls, 0, k), ops), v) != Eval(Spine(Units(ls, 1, k - 1), ops), v)
  {
    SpineUniform(Units(ls, 0, k), ops, op == And, v);
    UnitEvals(ls, 0, k, |ls| - 2, v);
    UnitEvals(ls, 1, k - 1, |ls| - 2, v);
    MovedDecides(ls, ops, op, k, v);
  }

  /** The unit before the last now decides a run of one operator. */
  lemma {:induction false} MovedDecides(ls: seq<Lit>, ops: seq<LogicOp>, op: LogicOp, k: nat, v: Valuation)
    requires |ls| == |ops| + 1 >= 2 && k > 0 && forall i :: 0 <= i < |ops| ==> ops[i] == op
    requires Eval(Units(ls, 1, k - 1)[|ls| - 2], v) == (op == Or)
    ensures Eval(Spine(Units(ls, 1, k - 1), ops), v) == (op == Or)
  {
    var units, n := Units(ls, 1, k - 1), |ls| - 1;
    var inner := Spine(units[..n], ops[..n - 1]);
    assert Spine(units, ops) == Logic(op, inner, units[n]);
    if n >= 2 {
      assert units[..n][n - 1] == units[n - 1];
      assert inner == Logic(op, Spine(units[..n][..n - 1], ops[..n - 1][..n - 2]), units[n - 1]);
    } else {
      assert inner == units[0];
    }
  }

  // ----- a single comparison

  /** The comparison of a tree that has one only, under all its `not`s. */
  lemma {:induction false} SingleEval(e: Expr, v: Valuation)
    requires |Lits(e)| == 1
    ensures Eval(e, v) == (LitEval(Lits(e)[0], v) != Odd(Nots(e)))
  {
    match e
    case Attr(_) =>
    case Not(x) => if !x.Attr? { SingleEval(x, v); }
    case Prec(x) => SingleEval(x, v);
    case Logic(_, l, r) =>
      LitsOps(l);
      LitsOps(r);
      assert false;
  }

  lemma SingleSame(x: Expr, y: Expr, v: Valuation, val: string -> bool)
    requires Key(x) == Key(y) && PlainPaths(x) && PlainPaths(y) && |Lits(x)| == 1 && CaseBlind(v, val)
    ensures Eval(x, v) == Eval(y, v)
  {
    SameKeyAlike(x, y);
    AlikeSingle(x, y);
    SingleEval(x, v);
    SingleEval(y, v);
    SameTruth(Lits(x)[0], Lits(y)[0], v, val);
  }

  lemma SameTruth(l: Lit, m: Lit, v: Valuation, val: string -> bool)
    requires Label(l) == Label(m) && l.neg == m.neg && CaseBlind(v, val)
    ensures LitEval(l, v) == LitEval(m, v)
  {
    assert v(l.atom) == val(ToLower(AtomString(l.atom)));
    assert v(m.atom) == val(ToLower(AtomString(m.atom)));
  }

  /** One comparison on the one side, the same one on the other, under as many `not`s. */
  lemma AlikeSingle(x: Expr, y: Expr)
    requires Alike(x, y) && |Lits(x)| == 1
    ensures |Lits(y)| == 1 && Label(Lits(y)[0]) == Label(Lits(x)[0]) && Lits(y)[0].neg == Lits(x)[0].neg
    ensures Nots(y) == Nots(x)
  {
    LitsOps(x);
    LitsOps(y);
    assert Ops(x, And) == Ops(y, And) && Ops(x, Or) == Ops(y, Or);
    var l := Lits(x)[0];
    LabelFound(Lits(x), Label(l), l.neg);
    assert LabelCount(Lits(y), Label(l), l.neg) > 0;
    LabelFound(Lits(y), Label(l), l.neg);
  }

  // ----- the exact statement

  /** Its words are words: no blank and no bracket in a path. */
  predicate PlainRule(rule: seq<Tok>) {
    ParseTokens(rule).Ok? ==> PlainPaths(ParseTokens(rule).value)
  }

  /** The same action, for the same requests. */
  predicate MeansSame(c: ConditionInfo, d: ConditionInfo, v: Valuation) {
    && c.action == d.action
    && ParseTokens(c.rule).Ok? && ParseTokens(d.rule).Ok?
    && Eval(ParseTokens(c.rule).value, v) == Eval(ParseTokens(d.rule).value, v)
  }

  /** Whatever compares equal to `c` means the same to a request that is blind to letter case. */
  ghost predicate RightCaseBlind(c: ConditionInfo) {
    forall d, v, val :: Equals(c, Some(d)) && PlainRule(d.rule) && CaseBlind(v, val) ==> MeansSame(c, d, v)
  }

  lemma {:induction false} LitsKnown(e: Expr, last: bool)
    requires ParsedTree(e, last) && PlainPaths(e)
    ensures forall m :: m in Lits(e) ==> WfAtom(m.atom) && PlainPaths(Attr(m.atom))
  {
    match e
    case Attr(_) =>
    case Not(x) => LitsKnown(x, true);
    case Prec(x) => LitsKnown(x, true);
    case Logic(_, l, r) => LitsKnown(l, false); LitsKnown(r, last);
  }

  lemma {:induction false} LitsPlain(e: Expr)
    requires forall m :: m in Lits(e) ==> PlainPaths(Attr(m.atom))
    ensures PlainPaths(e)
  {
    match e
    case Attr(a) => assert Lit(a, false) in Lits(e);
    case Not(x) =>
      if x.Attr? {
        assert Lit(x.atom, true) in Lits(e);
      } else {
        LitsPlain(x);
      }
    case Prec(x) => LitsPlain(x);
    case Logic(_, l, r) =>
      assert forall m :: m in Lits(l) || m in Lits(r) ==> m in Lits(e);
      LitsPlain(l);
      LitsPlain(r);
  }

  /** A variant of a rule, as a rule. */
  lemma VariantRule(c: ConditionInfo, y: Expr) returns (d: ConditionInfo)
    requires ParseTokens(c.rule).Ok? && PlainPaths(ParseTokens(c.rule).value)
    requires ParsedTree(ParseTokens(c.rule).value, true) && Variant(ParseTokens(c.rule).value, y)
    ensures ParseTokens(d.rule) == Ok(y) && PlainRule(d.rule) && Equals(c, Some(d))
  {
    LitsKnown(ParseTokens(c.rule).value, true);
    LitsPlain(y);
    LevelOfParsed(y, true);
    ParseIsLeftFold(LevelOf(y), true);
    d := ConditionInfo(Spell(PrintText(y), true), c.action);
  }

  lemma WrongTrue(c: ConditionInfo, y1: Expr, y2: Expr, v: Valuation, val: string -> bool)
    requires ParseTokens(c.rule).Ok? && PlainPaths(ParseTokens(c.rule).value)
    requires ParsedTree(ParseTokens(c.rule).value, true)
    requires Variant(ParseTokens(c.rule).value, y1) && Variant(ParseTokens(c.rule).value, y2)
    requires CaseBlind(v, val) && Eval(y1, v) != Eval(y2, v)
    ensures !RightCaseBlind(c)
  {
    var d1 := VariantRule(c, y1);
    var d2 := VariantRule(c, y2);
    assert !MeansSame(c, d1, v) || !MeansSame(c, d2, v);
  }

  /** For requests to which letter case does not matter, and every accepted rule whose comparisons are
      distinct up to letter case: all that compares equal to it means the same exactly when it is a
      run of one operator over possibly negated comparisons or holds a single comparison. */
  lemma CaseBlindExact(c: ConditionInfo)
    requires ParseTokens(c.rule).Ok? && PlainRule(c.rule) && Distinct(Lits(ParseTokens(c.rule).value))
    ensures var x := ParseTokens(c.rule).value;
      RightCaseBlind(c) <==> LiteralRun(x, And) || LiteralRun(x, Or) || |Lits(x)| == 1
  {
    var x := ParseTokens(c.rule).value;
    RunShape(c.rule, START);
    LitsKnown(x, true);
    LitsOps(x);
    if LiteralRun(x, And) || LiteralRun(x, Or) || |Lits(x)| == 1 {
      forall d, v, val | Equals(c, Some(d)) && PlainRule(d.rule) && CaseBlind(v, val) ensures MeansSame(c, d, v) {
        if |Lits(x)| == 1 {
          if c.rule != d.rule {
            SingleSame(x, ParseTokens(d.rule).value, v, val);
          }
        } else {
          EqualRunsEquivalent(c, d, if LiteralRun(x, And) then And else Or, v, val);
        }
      }
    } else if Ops(x, And) > 0 && Ops(x, Or) > 0 {
      var y1, y2, v, val := MixedPair(x);
      WrongTrue(c, y1, y2, v, val);
    } else {
      var op := if Ops(x, Or) == 0 then And else Or;
      if Nots(x) == 0 {
        CountsMakeRun(x, op);
      } else {
        var y1, y2, v, val := NegatedPair(x, op);
        WrongTrue(c, y1, y2, v, val);
      }
    }
  }

  // ----- the smallest examples, as accepted rules

  function RuleOf(e: Expr, action: string): ConditionInfo {
    ConditionInfo(Spell(PrintText(e), true), action)
  }

  lemma RuleReads(e: Expr, action: string)
    requires ParsedTree(e, true)
    ensures ParseTokens(RuleOf(e, action).rule) == Ok(e)
  {
    LevelOfParsed(e, true);
    ParseIsLeftFold(LevelOf(e), true);
  }

  predicate Ordinary(a: Atom) {
    WfAtom(a) && !IsLogicWord(a.value)
  }

  lemma Leaf(a: Atom)
    requires Ordinary(a)
    ensures ParsedTree(Attr(a), true) && ParsedTree(Attr(a), false) && !HasNot(Attr(a))
    ensures Lits(Attr(a)) == [Lit(a, false)] && Nots(Attr(a)) == 0 && forall op :: Ops(Attr(a), op) == 0
  {}

  /** Two comparisons joined. */
  lemma Two(op: LogicOp, a: Atom, b: Atom)
    requires Ordinary(a) && Ordinary(b)
    ensures var e := Logic(op, Attr(a), Attr(b));
      && ParsedTree(e, true) && Lits(e) == [Lit(a, false), Lit(b, false)] && Nots(e) == 0
      && forall o :: Ops(e, o) == One(o == op)
  {
    Leaf(a);
    Leaf(b);
  }

  /** Brackets around two joined comparisons. */
  lemma Group(op: LogicOp, a: Atom, b: Atom)
    requires Ordinary(a) && Ordinary(b)
    ensures var e := Prec(Logic(op, Attr(a), Attr(b)));
      && ParsedTree(e, true) && ParsedTree(e, false) && !HasNot(e)
      && Lits(e) == [Lit(a, false), Lit(b, false)] && Nots(e) == 0
      && Ops(e, op) == 1 && Ops(e, if op == And then Or else And) == 0
  {
    Two(op, a, b);
    Leaf(a);
    Leaf(b);
  }

  /** Two accepted rules with the same labels, and a valuation that tells them apart. */
  lemma TellsApart(x: Expr, y: Expr, action: string, v: Valuation, val: string -> bool)
    requires ParsedTree(x, true) && ParsedTree(y, true) && Lits(x) == Lits(y) && Nots(x) == Nots(y)
    requires Ops(x, And) == Ops(y, And) && Ops(x, Or) == Ops(y, Or)
    requires CaseBlind(v, val) && Eval(x, v) != Eval(y, v)
    ensures Equals(RuleOf(x, action), Some(RuleOf(y, action)))
    ensures !MeansSame(RuleOf(x, action), RuleOf(y, action), v)
  {
    RuleReads(x, action);
    RuleReads(y, action);
    forall op ensures Ops(x, op) == Ops(y, op) {
      assert op == And || op == Or;
    }
    SameCountsSameKey(x, y);
  }

  ghost predicate ToldApart(x: Expr, y: Expr, action: string) {
    && Equals(RuleOf(x, action), Some(RuleOf(y, action)))
    && exists v, val :: CaseBlind(v, val) && !MeansSame(RuleOf(x, action), RuleOf(y, action), v)
  }

  /** `a and (b or c)` compares equal to `(a and b) or c`. */
  lemma MixedRulesDiffer(a: Atom, b: Atom, c: Atom, action: string)
    requires Ordinary(a) && Ordinary(b) && Ordinary(c) && Distinct([Lit(a, false), Lit(b, false), Lit(c, false)])
    ensures ToldApart(Logic(And, Attr(a), Prec(Logic(Or, Attr(b), Attr(c)))),
                      Logic(Or, Prec(Logic(And, Attr(a), Attr(b))), Attr(c)), action)
  {
    var p, q := Logic(Or, Attr(b), Attr(c)), Logic(And, Attr(a), Attr(b));
    var x, y := Logic(And, Attr(a), Prec(p)), Logic(Or, Prec(q), Attr(c));
    var ls := [Lit(a, false), Lit(b, false), Lit(c, false)];
    Leaf(a);
    Leaf(c);
    Group(Or, b, c);
    Group(And, a, b);
    assert Lits(x) == ls && Lits(y) == ls;
    var v, val := Assign(ls, [false, false, true]);
    assert !v(ls[0].atom) && !v(ls[1].atom) && v(ls[2].atom);
    assert !Eval(x, v) && Eval(y, v);
    TellsApart(x, y, action, v, val);
  }

  /** `not (a and b)` compares equal to `not ((a)) and b`. */
  lemma NegatedGroupDiffers(a: Atom, b: Atom, action: string)
    requires Ordinary(a) && Ordinary(b) && Distinct([Lit(a, false), Lit(b, false)])
    ensures ToldApart(Not(Logic(And, Attr(a), Attr(b))), Logic(And, Not(Prec(Attr(a))), Attr(b)), action)
  {
    var p, q := Logic(And, Attr(a), Attr(b)), Not(Prec(Attr(a)));
    var x, y := Not(p), Logic(And, q, Attr(b));
    var ls := [Lit(a, false), Lit(b, false)];
    Leaf(a);
    Leaf(b);
    Two(And, a, b);
    assert ParsedTree(Prec(Attr(a)), true) && ParsedTree(q, false);
    assert Lits(Prec(Attr(a))) == Lits(q) == [ls[0]] && Nots(Prec(Attr(a))) == 0 && Nots(q) == 1;
    assert Ops(q, And) == Ops(Prec(Attr(a)), And) == 0 && Ops(q, Or) == Ops(Prec(Attr(a)), Or) == 0;
    var v, val := Assign(ls, [false, false]);
    assert !v(ls[0].atom) && !v(ls[1].atom);
    assert !Eval(Attr(a), v) && !Eval(Attr(b), v) && !Eval(Prec(Attr(a)), v);
    assert !Eval(p, v) && Eval(q, v);
    assert Eval(x, v) && !Eval(y, v);
    TellsApart(x, y, action, v, val);
  }
}
