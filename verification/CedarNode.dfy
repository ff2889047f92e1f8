/** Cedar expression nodes, and what the mapper makes of one comparison. An operand that IDQL cannot
    express is refused in some places and passed over in silence in others. */
module CedarNode {
  import opened Idql
  import opened CedarWord

  /** The operators of two operands. */
  type RelationOp = op: CompareOp | op != PR && op != IS witness EQ

  /** `NFunc` is a decimal comparison; `NIs` with `inside` is `is ... in`. `NOther` stands for every
      node refused whatever its operands (if-then-else, arithmetic, values ParseValue refuses). */
  datatype Node =
    | NRelation(op: RelationOp, lhs: Operand, rhs: Operand)
    | NFunc(op: RelationOp, args: seq<Operand>)
    | NIs(entity: Operand, entityType: string, inside: Option<Operand>)
    | NHas(entity: Operand, attr: string)
    | NLike(subject: Operand, pattern: string)
    | NOther
    | NAnd(left: Node, right: Node)
    | NOr(left: Node, right: Node)
    | NNot(arg: Node)

  predicate IsLeaf(n: Node) {
    !n.NAnd? && !n.NOr? && !n.NNot?
  }

  /** ParseValue as far as the printed word goes: the empty text becomes a quoted one. */
  function ParseValue(text: string): string {
    if text == "" then EMPTY else text
  }

  // ----- decimal comparisons

  /** The texts of the two sides: the last access and the last value, wherever they stand. */
  function Sides(args: seq<Operand>): (string, string) {
    if args == [] then ("", "")
    else
      var (left, right) := Sides(args[..|args| - 1]);
      var a := args[|args| - 1];
      if a.OValue? then (left, RawText(a.value))
      else if a.OAccess? then (Shown(a.left) + "." + a.attr, right)
      else (left, right)
  }

  /** mapCedarFunc's loop. */
  method MapCedarFunc(op: RelationOp, args: seq<Operand>) returns (a: Atom)
    ensures a == Atom(ParseValue(Sides(args).0), op, ParseValue(Sides(args).1))
  {
    var left, right := "", "";
    for i := 0 to |args|
      invariant (left, right) == Sides(args[..i])
    {
      assert args[..i + 1][..i] == args[..i];
      if args[i].OValue? {
        right := RawText(args[i].value);
      } else if args[i].OAccess? {
        left := Shown(args[i].left) + "." + args[i].attr;
      }
    }
    assert args[..|args|] == args;
    return Atom(ParseValue(left), op, ParseValue(right));
  }

  /** An access, then a number: what the source has in mind. */
  predicate AccessThenNumber(args: seq<Operand>) {
    |args| == 2 && args[0].OAccess? && Clean(args[0]) && args[1].OValue? && args[1].value.VText? && Clean(args[1])
  }

  /** Operands of another kind leave a side as it is. */
  lemma {:induction false} SidesStay(a: seq<Operand>, b: seq<Operand>)
    ensures (forall y :: y in b ==> !y.OValue?) ==> Sides(a + b).1 == Sides(a).1
    ensures (forall y :: y in b ==> !y.OAccess?) ==> Sides(a + b).0 == Sides(a).0
  {
    if b == [] {
      assert a + b == a;
    } else {
      var init := b[..|b| - 1];
      assert (a + b)[..|a + b| - 1] == a + init && (a + b)[|a + b| - 1] == b[|b| - 1];
      SidesStay(a, init);
    }
  }

  /** Of several values the last one counts, and of several accesses the last; without one the side
      is empty. */
  lemma SidesExact(a: seq<Operand>, x: Operand, b: seq<Operand>)
    ensures x.OValue? && (forall y :: y in b ==> !y.OValue?) ==>
      && Sides(a + [x] + b).1 == RawText(x.value)
      && (!x.value.VEntity? ==> Sides(a + [x] + b).1 == x.value.text)
    ensures x.OAccess? && (forall y :: y in b ==> !y.OAccess?) ==>
      Sides(a + [x] + b).0 == Shown(x.left) + "." + x.attr
    ensures (forall y :: y in b ==> !y.OValue?) ==> Sides(b).1 == ""
    ensures (forall y :: y in b ==> !y.OAccess?) ==> Sides(b).0 == ""
  {
    SidesStay(a + [x], b);
    assert (a + [x])[..|a + [x]| - 1] == a;
    SidesStay([], b);
    assert [] + b == b;
  }

  lemma SidesKept(args: seq<Operand>)
    requires AccessThenNumber(args)
    ensures Sides(args) == (Shown(args[0]), Shown(args[1]))
  {
    CleanExpressed(args[0]);
    assert args[..1] == [args[0]] && [args[0]][..0] == [];
    assert Shown(args[0].left) + "." + args[0].attr == Shown(args[0].left) + ("." + args[0].attr);
    assert Sides([args[0]]) == (Shown(args[0].left) + "." + args[0].attr, "");
  }

  // ----- patterns

  datatype Pattern = Match(op: RelationOp, text: string) | Complex | OutOfRange

  /** The branches for `like`, on a pattern in which each star is a wildcard. */
  function ReadPattern(p: string): Pattern {
    var n := |p|;
    if n > 0 && p[0] == '*' then
      if p[n - 1] == '*' && n == 1 then OutOfRange
      else if p[n - 1] == '*' && '*' !in p[1..n - 1] then Match(CO, Quote(p[1..n - 1]))
      else if '*' in p[1..] then Complex
      else Match(EW, Quote(p[1..]))
    else if n > 0 && p[n - 1] == '*' then
      if '*' in p[..n - 1] then Complex else Match(SW, Quote(p[..n - 1]))
    else Complex
  }

  lemma QuoteInjective(x: string, y: string)
    requires Quote(x) == Quote(y)
    ensures x == y
  {
    assert Quote(x)[1..] == Escape(x) + ("\"" + "") && Quote(y)[1..] == Escape(y) + ("\"" + "");
    QuotedRead(x, "");
    QuotedRead(y, "");
  }

  /** The text a supported pattern asks for. */
  function Matched(p: string): string
    requires ReadPattern(p).Match?
  {
    match ReadPattern(p).op
    case CO => p[1..|p| - 1]
    case EW => p[1..]
    case SW => p[..|p| - 1]
    case _ => ""
  }

  /** What is left of a pattern without its first, last or both characters. */
  lemma Stripped(p: string, x: string)
    requires '*' !in x
    ensures p == "*" + x + "*" ==> |p| > 1 && p[1..|p| - 1] == x
    ensures p == "*" + x ==> p[1..] == x
    ensures p == x + "*" ==> p[..|p| - 1] == x
  {}

  lemma PatternReads(p: string)
    ensures var r := ReadPattern(p);
      && (r.Match? && r.op == CO ==> exists y :: p == "*" + y + "*" && r.text == Quote(y))
      && (r.Match? && r.op == EW ==> exists y :: p == "*" + y && y != "" && r.text == Quote(y))
      && (r.Match? && r.op == SW ==> exists y :: p == y + "*" && y != "" && r.text == Quote(y))
  {
    var r, n := ReadPattern(p), |p|;
    if r.Match? {
      if r.op == CO {
        assert p == "*" + p[1..n - 1] + "*";
      } else if r.op == EW {
        assert p == "*" + p[1..];
      } else {
        assert p == p[..n - 1] + "*";
      }
    }
  }

  /** The supported patterns, and the one on which the slice of the inner text fails. */
  lemma PatternExact(p: string, x: string)
    requires '*' !in x
    ensures ReadPattern(p) == Match(CO, Quote(x)) <==> p == "*" + x + "*"
    ensures ReadPattern(p) == Match(EW, Quote(x)) <==> p == "*" + x && x != ""
    ensures ReadPattern(p) == Match(SW, Quote(x)) <==> p == x + "*" && x != ""
    ensures ReadPattern(p) == OutOfRange <==> p == "*"
  {
    PatternReads(p);
    Stripped(p, x);
    var r := ReadPattern(p);
    if r.Match? && r.text == Quote(x) {
      var y :| r.text == Quote(y) && (p == "*" + y + "*" || p == "*" + y || p == y + "*");
      forall y | r.text == Quote(y) ensures y == x {
        QuoteInjective(x, y);
      }
    }
    if p == x + "*" && x != "" {
      assert p[0] == x[0] && x[0] in x;
    }
    if p == "*" + x && x != "" {
      assert p[|p| - 1] == x[|x| - 1] && x[|x| - 1] in x;
    }
  }

  // ----- one comparison

  /** `Crashed` is a panic. */
  datatype Outcome = Tree(expr: Expr) | Refused | Crashed

  function Compare(path: string, op: CompareOp, value: string): Expr {
    Attr(Atom(ParseValue(path), op, ParseValue(value)))
  }

  function Present(path: string, attr: string): Atom {
    Atom(path + "." + (if ' ' in attr then Quote(attr) else attr), PR, "")
  }

  /** What the mapper returns for a comparison. The errors of a `like` subject, of the place after
      `is ... in` and of a decimal comparison's operand are thrown away. */
  function MapLeaf(n: Node): Outcome
    requires IsLeaf(n)
  {
    match n
    case NRelation(op, l, r) =>
      if Expressed(l) && Expressed(r) then Tree(Compare(Shown(l), op, Shown(r))) else Refused
    case NFunc(op, args) => Tree(Compare(Sides(args).0, op, Sides(args).1))
    case NIs(o, t, inside) =>
      if !Expressed(o) then Refused
      else if inside == None then Tree(Compare(Shown(o), IS, t))
      else Tree(Logic(And, Compare(Shown(o), IS, t), Compare(Shown(o), IN, Shown(inside.value))))
    case NHas(o, attr) => if Expressed(o) then Tree(Attr(Present(Shown(o), attr))) else Refused
    case NLike(s, p) =>
      (match ReadPattern(p)
       case Match(op, text) => Tree(Compare(Shown(s), op, text))
       case Complex => Refused
       case OutOfRange => Crashed)
    case NOther => Refused
  }

  // ----- what a node means in Cedar

  /** IDQL can say what the comparison says: nothing in it is refused, and the names are ordinary
      ones, so that the words stand for these operands and no others. */
  predicate Faithful(n: Node)
    requires IsLeaf(n)
  {
    match n
    case NRelation(_, l, r) => Clean(l) && Clean(r)
    case NFunc(_, args) => AccessThenNumber(args)
    case NIs(o, t, inside) => Clean(o) && t != "" && (inside.Some? ==> Clean(inside.value))
    case NHas(o, attr) => CleanHas(o, attr)
    case NLike(s, p) => Clean(s) && ReadPattern(p).Match?
    case NOther => false
  }

  /** An attribute with a blank is written in quotes. */
  predicate CleanHas(o: Operand, attr: string) {
    Clean(o) && Chained(o) && (Name(attr) || ' ' in attr)
  }

  /** What a policy can be true of: a comparison of operands, or a node IDQL cannot express. `Words`
      is what a rule may say that stands for nothing in Cedar. A `like` for contained text and
      `contains` are both `co`. */
  datatype Fact =
    | Compares(op: RelationOp, lhs: Operand, rhs: Operand)
    | IsOf(entity: Operand, entityType: string)
    | Has(entity: Operand, attr: string)
    | Words(atom: Atom)
    | Lost(node: Node)

  type World = Fact -> bool

  /** The comparison a fact becomes. */
  function AtomOf(f: Fact): Atom {
    match f
    case Compares(op, l, r) => Atom(Shown(l), op, Shown(r))
    case IsOf(o, t) => Atom(Shown(o), IS, t)
    case Has(o, attr) => Present(Shown(o), attr)
    case Words(a) => a
    case Lost(_) => Atom("", EQ, "")
  }

  /** The path of a presence test, read back. */
  function ReadHas(path: string): Option<Fact> {
    match ReadOperand(path)
    case None => None
    case Some((o, k)) =>
      if k == "" then if o.OAccess? then Some(Has(o.left, o.attr)) else None
      else if |k| < 2 || k[..2] != ".\"" then None
      else match ReadQuoted(k[2..])
        case None => None
        case Some((attr, k')) => if k' == "" then Some(Has(o, attr)) else None
  }

  function Candidate(a: Atom): Option<Fact> {
    if a.op == PR then ReadHas(a.path)
    else match ReadWhole(a.path)
      case None => None
      case Some(l) =>
        if a.op == IS then Some(IsOf(l, a.value))
        else match ReadWhole(a.value)
          case None => None
          case Some(r) => Some(Compares(a.op, l, r))
  }

  /** The fact a comparison of a rule speaks of. */
  function FactOf(a: Atom): Fact {
    match Candidate(a)
    case None => Words(a)
    case Some(f) => if AtomOf(f) == a then f else Words(a)
  }

  /** The rule's comparisons have the truth of the facts they speak of. */
  function Seen(w: World): Valuation {
    a => w(FactOf(a))
  }

  /** The facts a comparison asks for, all of them. */
  function LeafFacts(n: Node): set<Fact>
    requires IsLeaf(n)
  {
    if !Faithful(n) then {Lost(n)}
    else match n
      case NRelation(op, l, r) => {Compares(op, l, r)}
      case NFunc(op, args) => {Compares(op, args[0], args[1])}
      case NIs(o, t, None) => {IsOf(o, t)}
      case NIs(o, t, Some(x)) => {IsOf(o, t), Compares(IN, o, x)}
      case NHas(o, attr) => {Has(o, attr)}
      case NLike(s, p) => {Compares(ReadPattern(p).op, s, OValue(VString(Matched(p))))}
  }

  predicate CleanFact(f: Fact) {
    match f
    case Compares(_, l, r) => Clean(l) && Clean(r)
    case IsOf(o, _) => Clean(o)
    case Has(o, attr) => CleanHas(o, attr)
    case _ => false
  }

  /** Main result about the words: a comparison of a rule speaks of the one fact it was made of, so
      that distinct facts become distinct comparisons. */
  lemma FactRead(f: Fact)
    requires CleanFact(f)
    ensures FactOf(AtomOf(f)) == f
  {
    match f
    case Compares(_, l, r) =>
      WordsInjective(l, l);
      WordsInjective(r, r);
    case IsOf(o, _) => WordsInjective(o, o);
    case Has(o, attr) => HasRead(o, attr);
  }

  lemma FactsApart(f: Fact, g: Fact)
    requires CleanFact(f) && CleanFact(g)
    ensures AtomOf(f) == AtomOf(g) <==> f == g
  {
    FactRead(f);
    FactRead(g);
  }

  lemma HasRead(o: Operand, attr: string)
    requires CleanHas(o, attr)
    ensures ReadHas(Present(Shown(o), attr).path) == Some(Has(o, attr))
  {
    CleanExpressed(o);
    if ' ' in attr {
      var k := "." + Quote(attr);
      var rest := Escape(attr) + ("\"" + "");
      assert Shown(o) + "." + Quote(attr) == Shown(o) + k;
      ChainRead(o, k);
      assert k[1..] == Quote(attr) && Quote(attr)[0] == '"';
      assert TakeName(k[1..]).0 == "";
      assert k[..2] == ".\"" && k[2..] == rest;
      QuotedRead(attr, "");
    } else {
      var x := OAccess(o, attr);
      CleanExpressed(x);
      assert Shown(o) + "." + attr == Shown(x);
      WordsInjective(x, x);
    }
  }

  predicate CedarEval(n: Node, w: World) {
    match n
    case NAnd(l, r) => CedarEval(l, w) && CedarEval(r, w)
    case NOr(l, r) => CedarEval(l, w) || CedarEval(r, w)
    case NNot(x) => !CedarEval(x, w)
    case _ => forall f | f in LeafFacts(n) :: w(f)
  }

  /** Nothing in the node is beyond IDQL. */
  predicate Expressible(n: Node) {
    match n
    case NAnd(l, r) => Expressible(l) && Expressible(r)
    case NOr(l, r) => Expressible(l) && Expressible(r)
    case NNot(x) => Expressible(x)
    case _ => Faithful(n)
  }

  lemma ComparisonMeaning(op: RelationOp, l: Operand, r: Operand, w: World)
    requires Clean(l) && Clean(r)
    ensures Eval(Compare(Shown(l), op, Shown(r)), Seen(w)) == w(Compares(op, l, r))
  {
    ShownStarts(l);
    ShownStarts(r);
    FactRead(Compares(op, l, r));
  }

  lemma IsMeaning(o: Operand, t: string, w: World)
    requires Clean(o) && t != ""
    ensures Eval(Compare(Shown(o), IS, t), Seen(w)) == w(IsOf(o, t))
  {
    ShownStarts(o);
    FactRead(IsOf(o, t));
  }

  /** A faithful comparison is mapped to what it means. */
  lemma LeafMeaning(n: Node, w: World)
    requires IsLeaf(n) && Faithful(n)
    ensures MapLeaf(n).Tree? && Eval(MapLeaf(n).expr, Seen(w)) == CedarEval(n, w)
  {
    match n
    case NRelation(op, l, r) =>
      CleanExpressed(l);
      CleanExpressed(r);
      ComparisonMeaning(op, l, r, w);
    case NFunc(op, args) =>
      SidesKept(args);
      ComparisonMeaning(op, args[0], args[1], w);
    case NIs(o, t, inside) =>
      CleanExpressed(o);
      IsMeaning(o, t, w);
      if inside.Some? {
        ComparisonMeaning(IN, o, inside.value, w);
        assert LeafFacts(n) == {IsOf(o, t), Compares(IN, o, inside.value)};
      }
    case NHas(o, attr) =>
      CleanExpressed(o);
      FactRead(Has(o, attr));
    case NLike(s, p) =>
      MatchedText(p);
      ComparisonMeaning(ReadPattern(p).op, s, OValue(VString(Matched(p))), w);
  }

  lemma MatchedText(p: string)
    requires ReadPattern(p).Match?
    ensures ReadPattern(p).text == Quote(Matched(p))
  {}

  /** The operands whose errors come back, and those whose errors do not. */
  function Watched(n: Node): seq<Operand>
    requires IsLeaf(n)
  {
    match n
    case NRelation(_, l, r) => [l, r]
    case NIs(o, _, _) => [o]
    case NHas(o, _) => [o]
    case _ => []
  }

  predicate AllExpressed(os: seq<Operand>) {
    forall i :: 0 <= i < |os| ==> Expressed(os[i])
  }

  /** An operand's error is thrown away, or a decimal comparison is not of the usual form. */
  predicate Discards(n: Node)
    requires IsLeaf(n)
  {
    || (n.NLike? && !Expressed(n.subject) && ReadPattern(n.pattern).Match?)
    || (n.NFunc? && !AccessThenNumber(n.args))
    || (n.NIs? && Expressed(n.entity) && n.inside.Some? && !Expressed(n.inside.value))
  }

  /** Everything is expressed, but some name is none that its word can be read back to. */
  predicate Muddles(n: Node)
    requires IsLeaf(n)
  {
    match n
    case NRelation(_, l, r) => Expressed(l) && Expressed(r) && !(Clean(l) && Clean(r))
    case NIs(o, t, inside) =>
      && Expressed(o) && (inside.Some? ==> Expressed(inside.value))
      && !(Clean(o) && t != "" && (inside.Some? ==> Clean(inside.value)))
    case NHas(o, attr) => Expressed(o) && !CleanHas(o, attr)
    case NLike(s, p) => ReadPattern(p).Match? && Expressed(s) && !Clean(s)
    case _ => false
  }

  /** Main result about one comparison: it is mapped to a tree without being expressible, and so
      without any error, exactly when an error is thrown away in one of three places or a name muddles
      its word; and what stands for the lost operand. */
  lemma SwallowedExactly(n: Node)
    requires IsLeaf(n)
    ensures MapLeaf(n).Tree? && !Faithful(n) <==> Discards(n) || Muddles(n)
    ensures !(Discards(n) && Muddles(n))
    ensures MapLeaf(n).Refused? ==> !AllExpressed(Watched(n)) || n.NLike? || n.NOther?
    ensures n.NLike? && Discards(n) ==>
      MapLeaf(n) == Tree(Attr(Atom(EMPTY, ReadPattern(n.pattern).op, ReadPattern(n.pattern).text)))
    ensures n.NIs? && Discards(n) ==>
      MapLeaf(n).expr.right == Attr(Atom(ParseValue(Shown(n.entity)), IN, EMPTY))
  {
    match n
    case NRelation(_, l, r) =>
      assert Watched(n)[0] == l && Watched(n)[1] == r;
      CleanImplies(l);
      CleanImplies(r);
    case NIs(o, _, inside) =>
      assert Watched(n)[0] == o;
      CleanImplies(o);
      if inside.Some? {
        CleanImplies(inside.value);
      }
    case NHas(o, _) =>
      assert Watched(n)[0] == o;
      CleanImplies(o);
    case NLike(s, p) =>
      CleanImplies(s);
      if ReadPattern(p).Match? {
        assert ReadPattern(p).text != "";
      }
    case _ =>
  }

  /** Only a pattern of one star makes the mapper panic. */
  lemma CrashExactly(n: Node)
    requires IsLeaf(n)
    ensures MapLeaf(n).Crashed? <==> n.NLike? && n.pattern == "*"
  {
    if n.NLike? {
      PatternExact(n.pattern, "");
    }
  }

  lemma CleanImplies(o: Operand)
    ensures Clean(o) ==> Expressed(o)
  {
    if Clean(o) {
      CleanExpressed(o);
    }
  }

  /** What becomes of a decimal comparison: an access whose head is refused keeps its tail only, one
      without an access or a value gets the empty string, and one with the sides exchanged is mapped
      as if they were not. */
  lemma FuncSwallows(x: Operand, attr: string, value: Operand)
    requires value.OValue?
    ensures !Expressed(x) ==> Sides([OAccess(x, attr), value]) == ("." + attr, RawText(value.value))
    ensures !x.OValue? && !x.OAccess? ==> Sides([x, value]) == ("", RawText(value.value))
    ensures Sides([value, OAccess(x, attr)]) == Sides([OAccess(x, attr), value])
  {
    var a := OAccess(x, attr);
    assert [a, value][..1] == [a] && [a][..0] == [] && [value, a][..1] == [value] && [value][..0] == [];
    assert [x, value][..1] == [x] && [x][..0] == [];
    assert Sides([a]) == (Shown(x) + "." + attr, "");
    assert Sides([value]) == ("", RawText(value.value));
    assert "" + "." + attr == "." + attr;
    if !x.OValue? && !x.OAccess? {
      assert Sides([x]) == ("", "");
    }
  }

  // ----- what is lost matters

  function Facts(n: Node): set<Fact> {
    match n
    case NAnd(l, r) => Facts(l) + Facts(r)
    case NOr(l, r) => Facts(l) + Facts(r)
    case NNot(x) => Facts(x)
    case _ => LeafFacts(n)
  }

  /** No fact is asked for twice. */
  predicate NodeOnce(n: Node) {
    match n
    case NAnd(l, r) => NodeOnce(l) && NodeOnce(r) && Facts(l) !! Facts(r)
    case NOr(l, r) => NodeOnce(l) && NodeOnce(r) && Facts(l) !! Facts(r)
    case NNot(x) => NodeOnce(x)
    case _ => true
  }

  function Blend(s: set<Fact>, w: World, u: World): World {
    f => if f in s then w(f) else u(f)
  }

  lemma {:induction false} CedarLocal(n: Node, w: World, u: World)
    requires forall f :: f in Facts(n) ==> w(f) == u(f)
    ensures CedarEval(n, w) == CedarEval(n, u)
  {
    match n
    case NAnd(l, r) => CedarLocal(l, w, u); CedarLocal(r, w, u);
    case NOr(l, r) => CedarLocal(l, w, u); CedarLocal(r, w, u);
    case NNot(x) => CedarLocal(x, w, u);
    case _ => assert Facts(n) == LeafFacts(n);
  }

  lemma SomeFact(n: Node)
    requires IsLeaf(n)
    ensures exists f :: f in LeafFacts(n)
  {
    if !Faithful(n) {
      assert Lost(n) in LeafFacts(n);
    } else {
      match n
      case NRelation(op, l, r) => assert Compares(op, l, r) in LeafFacts(n);
      case NFunc(op, args) => assert Compares(op, args[0], args[1]) in LeafFacts(n);
      case NIs(o, t, _) => assert IsOf(o, t) in LeafFacts(n);
      case NHas(o, attr) => assert Has(o, attr) in LeafFacts(n);
      case NLike(s, p) => assert Compares(ReadPattern(p).op, s, OValue(VString(Matched(p)))) in LeafFacts(n);
    }
  }

  /** Two parts without a common fact keep what each makes of its own world. */
  lemma BlendKeeps(l: Node, r: Node, w: World, u: World)
    requires Facts(l) !! Facts(r)
    ensures CedarEval(l, Blend(Facts(l), w, u)) == CedarEval(l, w)
    ensures CedarEval(r, Blend(Facts(l), w, u)) == CedarEval(r, u)
  {
    CedarLocal(l, Blend(Facts(l), w, u), w);
    CedarLocal(r, Blend(Facts(l), w, u), u);
  }

  lemma {:induction false} MakeTrue(n: Node, b: bool) returns (w: World)
    requires NodeOnce(n)
    ensures CedarEval(n, w) == b
  {
    if n.NNot? {
      w := MakeTrue(n.arg, !b);
    } else if IsLeaf(n) {
      w := f => b;
      SomeFact(n);
    } else {
      var wl := MakeTrue(n.left, b);
      var wr := MakeTrue(n.right, b);
      w := Blend(Facts(n.left), wl, wr);
      BlendKeeps(n.left, n.right, wl, wr);
    }
  }

  /** The two worlds differ in what IDQL cannot express only. */
  ghost predicate SameSeen(w: World, u: World) {
    forall f: Fact :: !f.Lost? ==> w(f) == u(f)
  }

  /** A node with something beyond IDQL in it, and no fact twice, depends on it. */
  lemma {:induction false} LostMatters(n: Node) returns (w: World, u: World)
    requires NodeOnce(n) && !Expressible(n)
    ensures SameSeen(w, u) && CedarEval(n, w) != CedarEval(n, u)
  {
    if n.NNot? {
      w, u := LostMatters(n.arg);
    } else if IsLeaf(n) {
      assert LeafFacts(n) == {Lost(n)};
      w, u := (f: Fact) => true, (f: Fact) => !f.Lost?;
      assert !u(Lost(n));
    } else {
      var x, y := if Expressible(n.left) then n.right else n.left, if Expressible(n.left) then n.left else n.right;
      var wx, ux := LostMatters(x);
      var t := MakeTrue(y, n.NAnd?);
      w, u := Blend(Facts(x), wx, t), Blend(Facts(x), ux, t);
      BlendKeeps(x, y, wx, t);
      BlendKeeps(x, y, ux, t);
    }
  }
}
