/** Google CEL back to IDQL, and the whole round trip.

    cel-go's parser is replaced by the reference reader of `Surface`, which may group a run of `&&`
    or `||` in any way, followed by cel-go's treatment of `!`: pairs cancel, and a `!` in front of a
    relation belongs to its left operand. Words are read as the CEL language definition, section
    "Syntax", has it: identifiers and selections, string and boolean literals, null and aggregates.
    What a number reads back as, and which texts are dates, are parameters. */
module CelRead {
  import opened Idql
  import opened Strings
  import opened Surface
  import opened Once
  import opened Parser
  import opened ParserRetract
  import opened Serialize
  import opened Cel
  import opened CelExact

  // ----- words

  /** `isDate` is time.Parse with RFC 3339; `number` gives what a numeric literal is printed as
      after CEL has read it, or None when CEL does not read it. */
  datatype Literals = Literals(isDate: string -> bool, number: string -> Option<string>)

  datatype Kind = Str | Bool | Num | Null

  /** The AST that cel-go hands over; `Aggregate` stands for list and map literals. A string
      literal is kept as its word, with the quotes. */
  datatype CelExpr =
    | Ident(name: string)
    | Select(operand: CelExpr, field: string, testOnly: bool)
    | Const(kind: Kind, text: string)
    | Aggregate
    | Method(fn: string, target: CelExpr, margs: seq<CelExpr>)
    | Call(fn: string, args: seq<CelExpr>)

  predicate Quoted(w: string) {
    |w| >= 2 && w[0] == '"' && w[|w| - 1] == '"'
  }

  function Content(w: string): string
    requires Quoted(w)
  {
    w[1..|w| - 1]
  }

  predicate Letter(c: char) {
    'a' <= c <= 'z' || 'A' <= c <= 'Z' || c == '_'
  }

  predicate Digit(c: char) {
    '0' <= c <= '9'
  }

  const KEYWORDS := {"true", "false", "null", "in"}

  const RESERVED := {"as", "break", "const", "continue", "else", "for", "function", "if", "import", "let", "loop",
                     "package", "namespace", "return", "var", "void", "while"}

  predicate Selector(w: string) {
    && w != "" && Letter(w[0])
    && (forall i :: 0 <= i < |w| ==> Letter(w[i]) || Digit(w[i]))
    && w !in KEYWORDS
  }

  predicate Selectors(ws: seq<string>) {
    forall i :: 0 <= i < |ws| ==> Selector(ws[i])
  }

  /** A dotted name. */
  predicate Dotted(w: string) {
    var segs := Split(w, '.');
    Selectors(segs) && segs[0] !in RESERVED
  }

  predicate DottedBy(w: string, n: nat) {
    Dotted(w) && |Split(w, '.')| == n
  }

  function Chain(segs: seq<string>): CelExpr
    requires segs != []
  {
    if |segs| == 1 then Ident(segs[0]) else Select(Chain(segs[..|segs| - 1]), segs[|segs| - 1], false)
  }

  function ReadWord(w: string, lits: Literals): Option<CelExpr> {
    if Quoted(w) then Some(Const(Str, w))
    else if w == "true" || w == "false" then Some(Const(Bool, w))
    else if w == "null" then Some(Const(Null, w))
    else if w != "" && (w[0] == '[' || w[0] == '{') then Some(Aggregate)
    else if Dotted(w) then Some(Chain(Split(w, '.')))
    else match lits.number(w)
      case Some(x) => Some(Const(Num, x))
      case None => None
  }

  /** A date is written as a call of `timestamp`. */
  function ReadValue(w: string, lits: Literals): Option<CelExpr> {
    if lits.isDate(w) then Some(Call("timestamp", [Const(Str, "\"" + w + "\"")])) else ReadWord(w, lits)
  }

  // ----- from text to AST

  /** mapFilterAttrExpr's operator table; anything it does not list is written as `==`. */
  function CelOperator(op: CompareOp): string {
    match op
    case NE => "_!=_" case LT => "_<_" case LE => "_<=_" case GT => "_>_" case GE => "_>=_"
    case SW => "startsWith" case EW => "endsWith" case PR => "has" case CO => "contains" case IN => "@in"
    case _ => "_==_"
  }

  function Negated(c: CelExpr, odd: bool): CelExpr {
    if odd then Call("!_", [c]) else c
  }

  /** One comparison; `has` takes a selection only. */
  function AtomAst(a: Atom, odd: bool, lits: Literals): Option<CelExpr> {
    match ReadWord(a.path, lits)
    case None => None
    case Some(p) =>
      if a.op == PR then
        if p.Select? then Some(Negated(p.(testOnly := true), odd)) else None
      else match ReadValue(a.value, lits)
        case None => None
        case Some(v) =>
          Some(if IsRelation(a.op) then Call(CelOperator(a.op), [Negated(p, odd), v])
               else Negated(Method(CelOperator(a.op), p, [v]), odd))
  }

  /** From a parse tree of the text to the AST: brackets vanish and pairs of `!` cancel;
      `odd` says an odd number of them stands in front of `t`. None: CEL refuses the text. */
  function Ast(t: Expr, odd: bool, lits: Literals): Option<CelExpr> {
    match t
    case Attr(a) => AtomAst(a, odd, lits)
    case Not(x) => Ast(x, !odd, lits)
    case Prec(x) =>
      (match Ast(x, false, lits)
       case None => None
       case Some(c) => Some(Negated(c, odd)))
    case Logic(op, l, r) =>
      (match (Ast(l, false, lits), Ast(r, false, lits))
       case (Some(x), Some(y)) => Some(Negated(Call(LogicFn(op), [x, y]), odd))
       case _ => None)
  }

  function LogicFn(op: LogicOp): string {
    if op == And then "_&&_" else "_||_"
  }

  // ----- mapping the AST back to IDQL

  /** `Refused` comes from CEL. `Panics` is a panic while mapping; `Hole` a tree with an operand
      missing, on which SerializeExpression panics. */
  datatype CelError = Refused | UnimplementedExpr | UnimplementedOperand(fn: string) | BadDate | Panics | Hole

  type Mapped = Result<Expr, CelError>

  function IdentName(c: CelExpr): string {
    if c.Ident? then c.name else ""
  }

  function MapCelExpr(c: CelExpr, lits: Literals): Mapped
    decreases c, 1
  {
    match c
    case Call(fn, _) => MapCallExpr(c, lits)
    case Method(fn, target, margs) => MapCelAttrFunction(fn, target, margs)
    case Select(operand, field, _) => Ok(Attr(Atom(IdentName(operand) + "." + field, PR, "")))
    case _ => Err(UnimplementedExpr)
  }

  /** The path of a method's target: lost, and so the empty string, when it has more than one dot. */
  function TargetPath(target: CelExpr): string {
    var name := if target.Select? then IdentName(target.operand) else "";
    if name != "" then name + "." + target.field
    else if IdentName(target) == "" then EMPTY
    else IdentName(target)
  }

  /** Any argument but a string literal reads as the empty string. */
  function MapCelAttrFunction(fn: string, target: CelExpr, margs: seq<CelExpr>): Mapped {
    if fn !in {"startsWith", "endsWith", "contains"} then Err(UnimplementedOperand(fn))
    else if margs == [] then Err(Panics)
    else
      var value := if margs[0].Const? && margs[0].kind == Str then margs[0].text else EMPTY;
      var op := if fn == "startsWith" then SW else if fn == "endsWith" then EW else CO;
      Ok(Attr(Atom(TargetPath(target), op, value)))
  }

  function MapCallExpr(c: CelExpr, lits: Literals): Mapped
    requires c.Call?
    decreases c, 0
  {
    var fn, args := c.fn, c.args;
    if fn == "_&&_" || fn == "_||_" then
      match MapArgs(args, lits)
      case Err(e) => Err(e)
      case Ok(es) => if es == [] then Err(Panics) else Ok(NestRight(LogicOpOf(fn == "_&&_"), es))
    else if fn == "!_" then
      if args == [] then Err(Panics)
      else match MapCelExpr(args[0], lits)
        case Ok(x) => Ok(Not(x))
        case Err(e) => Err(if e == Panics then Panics else Hole)
    else if fn == "_==_" then MapCelAttrCompare(args, EQ, lits)
    else if fn == "_!=_" then MapCelAttrCompare(args, NE, lits)
    else if fn == "_>_" then MapCelAttrCompare(args, GT, lits)
    else if fn == "_<_" then MapCelAttrCompare(args, LT, lits)
    else if fn == "_<=_" then MapCelAttrCompare(args, LE, lits)
    else if fn == "_>=_" then MapCelAttrCompare(args, GE, lits)
    else if fn == "@in" then MapCelAttrCompare(args, IN, lits)
    else Err(UnimplementedOperand(fn))
  }

  function MapArgs(args: seq<CelExpr>, lits: Literals): Result<seq<Expr>, CelError>
    decreases args, 0
  {
    if args == [] then Ok([])
    else match MapCelExpr(args[0], lits)
      case Err(e) => if e == Hole && MapArgs(args[1..], lits).Err? then MapArgs(args[1..], lits) else Err(e)
      case Ok(x) =>
        match MapArgs(args[1..], lits)
        case Err(e) => Err(e)
        case Ok(xs) => Ok([x] + xs)
  }

  /** A path of more than one dot is dereferenced where there is nothing. */
  function PathOf(c: CelExpr): Result<string, CelError> {
    match c
    case Ident(name) => Ok(name)
    case Select(operand, field, _) => if operand.Ident? then Ok(operand.name + "." + field) else Err(Panics)
    case _ => Err(Panics)
  }

  /** The left operand's path, and whether a `!` in front of it negates the comparison. */
  function ComparePath(c: CelExpr): Result<(string, bool), CelError> {
    match c
    case Call(fn, inner) =>
      if fn != "!_" then Err(UnimplementedOperand(fn))
      else if inner == [] then Err(Panics)
      else (match PathOf(inner[0])
            case Ok(path) => Ok((path, true))
            case Err(e) => Err(e))
    case Method(fn, _, _) => Err(UnimplementedOperand(fn))
    case _ =>
      (match PathOf(c)
       case Ok(path) => Ok((path, false))
       case Err(e) => Err(e))
  }

  /** A string that is a date becomes one; a selection or an aggregate leaves the value out. */
  function CompareValue(c: CelExpr, lits: Literals): Result<string, CelError> {
    match c
    case Const(Str, w) => Ok(if Quoted(w) && lits.isDate(Content(w)) then Content(w) else w)
    case Const(Null, _) => Ok(EMPTY)
    case Const(_, w) => Ok(w)
    case Ident(name) => Ok(name)
    case Call(fn, args) =>
      if fn != "timestamp" then Err(UnimplementedOperand(fn))
      else if args == [] then Err(Panics)
      else
        var date := if args[0].Const? && args[0].kind == Str && Quoted(args[0].text) then Content(args[0].text) else "";
        if lits.isDate(date) then Ok(date) else Err(BadDate)
    case Method(fn, _, _) => Err(UnimplementedOperand(fn))
    case _ => Err(Hole)
  }

  /** A negated left operand negates the comparison. */
  function MapCelAttrCompare(args: seq<CelExpr>, op: CompareOp, lits: Literals): Mapped {
    if args == [] then Err(Panics)
    else match ComparePath(args[0])
      case Err(e) => Err(e)
      case Ok((path, isNot)) =>
        if |args| == 1 then Err(Panics)
        else match CompareValue(args[1], lits)
          case Err(e) => Err(e)
          case Ok(value) =>
            var attr := Attr(Atom(path, op, value));
            Ok(if isNot then Not(attr) else attr)
  }

  /** MapProviderToCondition up to the printing, for a parse tree of the text. */
  function MapBack(t: Expr, lits: Literals): Mapped {
    match Ast(t, false, lits)
    case None => Err(Refused)
    case Some(c) => MapCelExpr(c, lits)
  }

  /** What the collapsing loop computes: a run nested to the right. */
  function NestRight(op: LogicOp, es: seq<Expr>): Expr
    requires es != []
  {
    if |es| == 1 then es[0] else Logic(op, es[0], NestRight(op, es[1..]))
  }

  lemma {:induction false} NestRightLastTwo(op: LogicOp, es: seq<Expr>)
    requires |es| >= 2
    ensures NestRight(op, es) == NestRight(op, es[..|es| - 2] + [Logic(op, es[|es| - 2], es[|es| - 1])])
  {
    var fs := es[..|es| - 2] + [Logic(op, es[|es| - 2], es[|es| - 1])];
    if |es| == 2 {
      assert es[1..] == [es[1]];
    } else {
      NestRightLastTwo(op, es[1..]);
      assert es[1..][..|es[1..]| - 2] + [Logic(op, es[|es| - 2], es[|es| - 1])] == fs[1..];
    }
  }

  /** mapCelLogical's loop: the last two clauses become one until one is left. */
  method CollapseFilters(es: seq<Expr>, op: LogicOp) returns (e: Expr)
    requires es != []
    ensures e == NestRight(op, es)
  {
    var filters := es;
    while |filters| > 1
      invariant filters != []
      invariant NestRight(op, filters) == NestRight(op, es)
      decreases |filters|
    {
      var i := |filters|;
      var subFilter := Logic(op, filters[i - 2], filters[i - 1]);
      NestRightLastTwo(op, filters);
      ghost var was := filters;
      filters := filters[i - 2 := subFilter];
      filters := filters[..i - 1];
      assert filters == was[..i - 2] + [subFilter];
    }
    e := filters[0];
  }

  // ----- one comparison

  /** What a comparison comes back as. */
  function Back(a: Atom, lits: Literals): Result<Atom, CelError> {
    match ReadWord(a.path, lits)
    case None => Err(Refused)
    case Some(p) =>
      if a.op == PR then
        if p.Select? then Ok(Atom(IdentName(p.operand) + "." + p.field, PR, "")) else Err(Refused)
      else match ReadValue(a.value, lits)
        case None => Err(Refused)
        case Some(v) =>
          if IsRelation(a.op) then
            match PathOf(p)
            case Err(e) => Err(e)
            case Ok(path) =>
              match CompareValue(v, lits)
              case Err(e) => Err(e)
              case Ok(value) => Ok(Atom(path, if a.op == IS then EQ else a.op, value))
          else Ok(Atom(TargetPath(p), a.op, if v.Const? && v.kind == Str then v.text else EMPTY))
  }

  lemma {:induction false} ChainShape(segs: seq<string>)
    requires segs != []
    ensures Chain(segs).Ident? || Chain(segs).Select?
    ensures |segs| == 1 <==> Chain(segs).Ident?
    ensures |segs| == 2 <==> Chain(segs).Select? && Chain(segs).operand.Ident?
    ensures |segs| == 2 ==> Chain(segs) == Select(Ident(segs[0]), segs[1], false)
  {
    if |segs| == 1 {
    } else {
      ChainShape(segs[..|segs| - 1]);
    }
  }

  lemma WordIsNoCall(w: string, lits: Literals)
    requires ReadWord(w, lits).Some?
    ensures !ReadWord(w, lits).value.Call? && !ReadWord(w, lits).value.Method?
  {
    ChainShape(Split(w, '.'));
  }

  lemma MapNegated(c: CelExpr, odd: bool, lits: Literals)
    ensures MapCelExpr(c, lits).Ok? ==>
      MapCelExpr(Negated(c, odd), lits) == Ok(if odd then Not(MapCelExpr(c, lits).value) else MapCelExpr(c, lits).value)
    ensures MapCelExpr(c, lits).Err? ==> MapCelExpr(Negated(c, odd), lits).Err?
  {
    assert Negated(c, true).args[0] == c;
  }

  /** What a comparison's AST is mapped to: what the comparison comes back as, negated when an odd
      number of `!` stands before it; otherwise CEL or the mapper refuses it. */
  predicate MapsTo(c: Option<CelExpr>, b: Result<Atom, CelError>, odd: bool, lits: Literals) {
    match b
    case Ok(a) => c.Some? && MapCelExpr(c.value, lits) == Ok(if odd then Not(Attr(a)) else Attr(a))
    case Err(_) => c.None? || MapCelExpr(c.value, lits).Err?
  }

  lemma RelationFn(op: CompareOp, args: seq<CelExpr>, lits: Literals)
    requires IsRelation(op)
    ensures MapCelExpr(Call(CelOperator(op), args), lits) == MapCelAttrCompare(args, if op == IS then EQ else op, lits)
  {
    assert "!_"[0] == '!' && "_&&_"[1] == '&' && "_||_"[1] == '|';
  }

  lemma NegatedPath(p: CelExpr, odd: bool)
    requires !p.Call? && !p.Method?
    ensures ComparePath(Negated(p, odd)) == if PathOf(p).Ok? then Ok((PathOf(p).value, odd)) else Err(PathOf(p).error)
  {
    assert Negated(p, true).args[0] == p;
  }

  lemma MapRelation(a: Atom, odd: bool, lits: Literals)
    requires IsRelation(a.op)
    ensures MapsTo(AtomAst(a, odd, lits), Back(a, lits), odd, lits)
  {
    if ReadWord(a.path, lits).Some? && ReadValue(a.value, lits).Some? {
      var p, v := ReadWord(a.path, lits).value, ReadValue(a.value, lits).value;
      WordIsNoCall(a.path, lits);
      RelationFn(a.op, [Negated(p, odd), v], lits);
      NegatedPath(p, odd);
    }
  }

  lemma MapFunction(a: Atom, odd: bool, lits: Literals)
    requires !IsRelation(a.op)
    ensures MapsTo(AtomAst(a, odd, lits), Back(a, lits), odd, lits)
  {
    if ReadWord(a.path, lits).Some? {
      var p := ReadWord(a.path, lits).value;
      if a.op == PR {
        if p.Select? {
          MapNegated(p.(testOnly := true), odd, lits);
        }
      } else if ReadValue(a.value, lits).Some? {
        MapNegated(Method(CelOperator(a.op), p, [ReadValue(a.value, lits).value]), odd, lits);
      }
    }
  }

  lemma MapAtomAst(a: Atom, odd: bool, lits: Literals)
    ensures MapsTo(AtomAst(a, odd, lits), Back(a, lits), odd, lits)
  {
    if IsRelation(a.op) {
      MapRelation(a, odd, lits);
    } else {
      MapFunction(a, odd, lits);
    }
  }

  // ----- exactly which comparisons come back as they were

  /** A bare numeric word that reads back as itself. */
  predicate NumberKept(w: string, lits: Literals) {
    ReadWord(w, lits) == Some(Const(Num, w))
  }

  predicate ValueSurvives(w: string, lits: Literals) {
    || lits.isDate(w)
    || (Quoted(w) && !lits.isDate(Content(w)))
    || w == "true" || w == "false"
    || DottedBy(w, 1)
    || NumberKept(w, lits)
  }

  /** A presence test needs exactly one dot, other comparisons at most one; the value must be of a
      kind the operator's reader looks at. */
  predicate AtomSurvives(a: Atom, lits: Literals) {
    if a.op == PR then DottedBy(a.path, 2) && a.value == ""
    else if IsRelation(a.op) then
      a.op != IS && (DottedBy(a.path, 1) || DottedBy(a.path, 2)) && ValueSurvives(a.value, lits)
    else
      (DottedBy(a.path, 1) || DottedBy(a.path, 2) || a.path == EMPTY) && Quoted(a.value)
  }

  /** What is taken for granted of dates and numbers: a date begins with a digit; what a number
      reads back as is a number that reads back as itself. */
  ghost predicate Sane(lits: Literals) {
    && (forall w :: lits.isDate(w) ==> w != "" && Digit(w[0]))
    && (forall w :: lits.number(w).Some? ==> SaneNumber(lits.number(w).value, lits))
  }

  predicate SaneNumber(x: string, lits: Literals) {
    x != "" && (Digit(x[0]) || x[0] == '-') && !lits.isDate(x) && lits.number(x) == Some(x)
  }

  /** A word that begins with neither a letter nor a quote nor a bracket is no name. */
  lemma NotDotted(w: string)
    requires w == "" || !Letter(w[0])
    ensures !Dotted(w)
  {
    var segs := Split(w, '.');
    if w == "" {
      assert segs == [""];
    } else if w[0] == '.' {
      assert segs[0] == "";
    } else {
      assert segs[0][0] == w[0];
    }
    assert !Selector(segs[0]);
  }

  lemma QuotedEmpty()
    ensures Quoted(EMPTY) && Content(EMPTY) == "" && !Dotted(EMPTY)
  {
    NotDotted(EMPTY);
  }

  lemma SaneNumberKept(x: string, lits: Literals)
    requires SaneNumber(x, lits)
    ensures NumberKept(x, lits)
  {
    NotDotted(x);
  }

  lemma OnePieceWord(w: string)
    requires '.' !in w
    ensures Split(w, '.') == [w]
  {
    SplitPrefix(w, "", '.');
    assert w + "" == w;
  }

  lemma KeywordNotDotted(w: string)
    requires w in KEYWORDS
    ensures !Dotted(w)
  {
    assert '.' !in "true" && '.' !in "false" && '.' !in "null" && '.' !in "in";
    OnePieceWord(w);
    assert !Selector(Split(w, '.')[0]);
  }

  /** A dotted word is read as a chain of selections. */
  lemma DottedRead(w: string, lits: Literals)
    requires Dotted(w)
    ensures ReadWord(w, lits) == Some(Chain(Split(w, '.'))) && !Quoted(w)
  {
    if w == "" || !Letter(w[0]) {
      NotDotted(w);
    } else if w in KEYWORDS {
      KeywordNotDotted(w);
    }
  }

  /** A dotted word and its pieces. */
  lemma DottedPieces(w: string)
    requires Dotted(w)
    ensures DottedBy(w, 1) ==> Chain(Split(w, '.')) == Ident(w) && w != ""
    ensures DottedBy(w, 2) ==>
      var segs := Split(w, '.');
      Chain(segs) == Select(Ident(segs[0]), segs[1], false) && segs[0] + "." + segs[1] == w && segs[0] != ""
  {
    var segs := Split(w, '.');
    ChainShape(segs);
    JoinSplit(w, '.');
    assert Selector(segs[0]);
    if |segs| == 2 {
      assert segs[1..] == [segs[1]];
      assert segs[0] + ['.'] + segs[1] == segs[0] + "." + segs[1];
    }
  }

  /** Any other word is read as something that has no path of its own. */
  lemma OtherRead(w: string, lits: Literals)
    requires !Dotted(w) && ReadWord(w, lits).Some?
    ensures ReadWord(w, lits).value.Const? || ReadWord(w, lits).value.Aggregate?
  {}

  lemma PathExact(w: string, lits: Literals)
    requires ReadWord(w, lits).Some?
    ensures var p := ReadWord(w, lits).value;
      && (PathOf(p) == Ok(w) <==> DottedBy(w, 1) || DottedBy(w, 2))
      && (PathOf(p).Ok? ==> PathOf(p) == Ok(w))
      && (TargetPath(p) == w <==> DottedBy(w, 1) || DottedBy(w, 2) || w == EMPTY)
      && (TargetPath(p) == w || TargetPath(p) == EMPTY)
  {
    QuotedEmpty();
    if Dotted(w) {
      DottedRead(w, lits);
      DottedPieces(w);
      ChainShape(Split(w, '.'));
    } else {
      OtherRead(w, lits);
    }
  }

  /** What `r` must say of a value `w` that was read: it survives exactly when it is unchanged, and
      what it became survives. */
  predicate ValueOutcome(r: Result<string, CelError>, w: string, lits: Literals) {
    && (r == Ok(w) <==> ValueSurvives(w, lits))
    && (r.Ok? ==> ValueSurvives(r.value, lits))
  }

  lemma DateValue(w: string, lits: Literals)
    requires Sane(lits) && lits.isDate(w)
    ensures ValueOutcome(CompareValue(ReadValue(w, lits).value, lits), w, lits)
  {
    var q := "\"" + w + "\"";
    assert Quoted(q) && Content(q) == w;
  }

  lemma DottedValue(w: string, lits: Literals)
    requires Sane(lits) && !lits.isDate(w) && Dotted(w)
    ensures ReadWord(w, lits).Some? && ValueOutcome(CompareValue(ReadWord(w, lits).value, lits), w, lits)
  {
    DottedRead(w, lits);
    DottedPieces(w);
    ChainShape(Split(w, '.'));
  }

  lemma QuotedValue(w: string, lits: Literals)
    requires Sane(lits) && !lits.isDate(w) && Quoted(w)
    ensures ValueOutcome(CompareValue(ReadWord(w, lits).value, lits), w, lits)
  {
    NotDotted(w);
    assert ReadWord(w, lits) == Some(Const(Str, w));
    assert |Content(w)| < |w|;
    assert w[0] == '"' && "true"[0] == 't' && "false"[0] == 'f';
  }

  lemma NullValue(lits: Literals)
    requires Sane(lits)
    ensures ReadWord("null", lits) == Some(Const(Null, "null"))
    ensures ValueOutcome(Ok(EMPTY), "null", lits)
  {
    QuotedEmpty();
    OnePieceWord("null");
    assert !Selector("null");
    assert "null"[0] == 'n' && EMPTY[0] == '"';
    assert "null" != "true" && "null" != "false";
  }

  lemma NumberValue(w: string, lits: Literals)
    requires Sane(lits) && !lits.isDate(w) && ReadWord(w, lits).Some? && ReadWord(w, lits).value.Const?
    requires ReadWord(w, lits).value.kind == Num
    ensures ValueOutcome(CompareValue(ReadWord(w, lits).value, lits), w, lits)
  {
    var x := lits.number(w).value;
    SaneNumberKept(x, lits);
  }

  lemma ValueExact(w: string, lits: Literals)
    requires Sane(lits) && ReadValue(w, lits).Some?
    ensures ValueOutcome(CompareValue(ReadValue(w, lits).value, lits), w, lits)
  {
    if lits.isDate(w) {
      DateValue(w, lits);
    } else if Dotted(w) {
      DottedValue(w, lits);
    } else if Quoted(w) {
      QuotedValue(w, lits);
    } else if w == "null" {
      NullValue(lits);
    } else if ReadWord(w, lits).value.Const? && ReadWord(w, lits).value.kind == Num {
      NumberValue(w, lits);
    }
  }

  lemma RelationBack(a: Atom, lits: Literals)
    requires Sane(lits) && IsRelation(a.op)
    ensures Back(a, lits) == Ok(a) <==> AtomSurvives(a, lits)
    ensures Back(a, lits).Ok? ==> AtomSurvives(Back(a, lits).value, lits)
  {
    SurvivorsRead(a.path, a.value, lits);
    if ReadWord(a.path, lits).Some? && ReadValue(a.value, lits).Some? {
      PathExact(a.path, lits);
      ValueExact(a.value, lits);
    }
  }

  /** Words of the surviving kinds are read. */
  lemma SurvivorsRead(path: string, value: string, lits: Literals)
    ensures Dotted(path) ==> ReadWord(path, lits).Some?
    ensures ValueSurvives(value, lits) ==> ReadValue(value, lits).Some?
  {
    if Dotted(path) {
      DottedRead(path, lits);
    }
    if Dotted(value) {
      DottedRead(value, lits);
    }
  }

  /** Only a quoted word is read as a string, and a date never is. */
  lemma StringRead(w: string, lits: Literals)
    requires Sane(lits)
    ensures Quoted(w) <==>
      ReadValue(w, lits).Some? && ReadValue(w, lits).value.Const? && ReadValue(w, lits).value.kind == Str
    ensures Quoted(w) ==> ReadValue(w, lits) == Some(Const(Str, w))
  {
    if Quoted(w) {
      assert !Digit(w[0]);
    } else if Dotted(w) {
      ChainShape(Split(w, '.'));
    }
  }

  lemma FunctionBack(a: Atom, lits: Literals)
    requires Sane(lits) && !IsRelation(a.op) && a.op != PR
    ensures Back(a, lits) == Ok(a) <==> AtomSurvives(a, lits)
    ensures Back(a, lits).Ok? ==> AtomSurvives(Back(a, lits).value, lits)
  {
    QuotedEmpty();
    SurvivorsRead(a.path, a.value, lits);
    StringRead(a.value, lits);
    if ReadWord(a.path, lits).Some? {
      PathExact(a.path, lits);
    }
  }

  lemma PresenceBack(a: Atom, lits: Literals)
    requires a.op == PR
    ensures Back(a, lits) == Ok(a) <==> AtomSurvives(a, lits)
    ensures Back(a, lits).Ok? ==>
      AtomSurvives(Back(a, lits).value, lits) || Back(Back(a, lits).value, lits).Err?
  {
    if Dotted(a.path) {
      DottedRead(a.path, lits);
      DottedPieces(a.path);
      ChainShape(Split(a.path, '.'));
      if Back(a, lits).Ok? && !DottedBy(a.path, 2) {
        LeadingDot(Chain(Split(a.path, '.')).field, lits);
      }
    } else if ReadWord(a.path, lits).Some? {
      OtherRead(a.path, lits);
    }
  }

  lemma LeadingDot(field: string, lits: Literals)
    ensures ReadWord("." + field, lits).Some? ==> !ReadWord("." + field, lits).value.Select?
  {
    NotDotted("." + field);
    if ReadWord("." + field, lits).Some? {
      OtherRead("." + field, lits);
    }
  }

  /** Main result about one comparison: it comes back as it was exactly when its path and value are
      of the readable kinds; and what comes back otherwise survives or is refused the next time. */
  lemma BackExact(a: Atom, lits: Literals)
    requires Sane(lits)
    ensures Back(a, lits) == Ok(a) <==> AtomSurvives(a, lits)
    ensures Back(a, lits).Ok? ==>
      Back(Back(a, lits).value, lits) == Ok(Back(a, lits).value) || Back(Back(a, lits).value, lits).Err?
  {
    AtomBack(a, lits);
    if Back(a, lits).Ok? {
      AtomBack(Back(a, lits).value, lits);
    }
  }

  lemma AtomBack(a: Atom, lits: Literals)
    requires Sane(lits)
    ensures Back(a, lits) == Ok(a) <==> AtomSurvives(a, lits)
    ensures Back(a, lits).Ok? ==>
      AtomSurvives(Back(a, lits).value, lits) || Back(Back(a, lits).value, lits).Err?
  {
    if a.op == PR {
      PresenceBack(a, lits);
    } else if IsRelation(a.op) {
      RelationBack(a, lits);
    } else {
      FunctionBack(a, lits);
    }
  }

  // ----- whole rules

  predicate Survives(s: set<Atom>, lits: Literals) {
    forall a | a in s :: AtomSurvives(a, lits)
  }

  /** The valuation a tree sees when its comparisons have come back. */
  function Through(v: Valuation, lits: Literals): Valuation {
    a => Back(a, lits).Ok? && v(Back(a, lits).value)
  }

  predicate AllBack(t: Expr, lits: Literals) {
    match t
    case Attr(a) => Back(a, lits).Ok?
    case Not(x) => AllBack(x, lits)
    case Prec(x) => AllBack(x, lits)
    case Logic(_, l, r) => AllBack(l, lits) && AllBack(r, lits)
  }

  lemma MapOne(c: CelExpr, lits: Literals)
    ensures MapArgs([c], lits).Ok? <==> MapCelExpr(c, lits).Ok?
    ensures MapCelExpr(c, lits).Ok? ==> MapArgs([c], lits) == Ok([MapCelExpr(c, lits).value])
  {
    assert [c][1..] == [];
    assert MapArgs([], lits) == Ok([]);
    if MapCelExpr(c, lits).Ok? {
      assert [MapCelExpr(c, lits).value] + [] == [MapCelExpr(c, lits).value];
    }
  }

  lemma MapTwo(a: CelExpr, b: CelExpr, lits: Literals)
    ensures MapArgs([a, b], lits).Ok? <==> MapCelExpr(a, lits).Ok? && MapCelExpr(b, lits).Ok?
    ensures MapArgs([a, b], lits).Ok? ==>
      MapArgs([a, b], lits).value == [MapCelExpr(a, lits).value, MapCelExpr(b, lits).value]
  {
    assert [a, b][1..] == [b];
    MapOne(b, lits);
  }

  lemma NestTwo(op: LogicOp, x: Expr, y: Expr)
    ensures NestRight(op, [x, y]) == Logic(op, x, y)
  {
    assert [x, y][1..] == [y];
  }

  lemma LogicCall(op: LogicOp, args: seq<CelExpr>, lits: Literals)
    requires args != []
    ensures var c, es := MapCelExpr(Call(LogicFn(op), args), lits), MapArgs(args, lits);
      if es.Ok? && es.value != [] then c == Ok(NestRight(op, es.value)) else c.Err?
  {
    assert "_||_"[1] == '|' && "_&&_"[1] == '&';
    assert LogicOpOf(LogicFn(op) == "_&&_") == op;
  }

  lemma MapPair(op: LogicOp, a: CelExpr, b: CelExpr, lits: Literals)
    ensures var c := Call(LogicFn(op), [a, b]);
      var ha, hb := MapCelExpr(a, lits), MapCelExpr(b, lits);
      if ha.Ok? && hb.Ok? then MapCelExpr(c, lits) == Ok(Logic(op, ha.value, hb.value)) else MapCelExpr(c, lits).Err?
  {
    LogicCall(op, [a, b], lits);
    MapTwo(a, b, lits);
    var es := MapArgs([a, b], lits);
    if es.Ok? {
      NestTwo(op, es.value[0], es.value[1]);
    }
  }

  /** A tree is mapped exactly when each of its comparisons is, and means the tree as its
      comparisons have come back. */
  lemma {:induction false} MapAst(t: Expr, odd: bool, lits: Literals)
    ensures (Ast(t, odd, lits).Some? && MapCelExpr(Ast(t, odd, lits).value, lits).Ok?) <==> AllBack(t, lits)
    ensures AllBack(t, lits) ==>
      forall v :: Eval(MapCelExpr(Ast(t, odd, lits).value, lits).value, v) == (Eval(t, Through(v, lits)) != odd)
    decreases t
  {
    match t
    case Attr(a) => MapAtomAst(a, odd, lits);
    case Not(x) => MapAst(x, !odd, lits);
    case Prec(x) =>
      MapAst(x, false, lits);
      if Ast(x, false, lits).Some? {
        MapNegated(Ast(x, false, lits).value, odd, lits);
      }
    case Logic(op, l, r) =>
      MapAst(l, false, lits);
      MapAst(r, false, lits);
      if Ast(l, false, lits).Some? && Ast(r, false, lits).Some? {
        var x, y := Ast(l, false, lits).value, Ast(r, false, lits).value;
        MapPair(op, x, y, lits);
        MapNegated(Call(LogicFn(op), [x, y]), odd, lits);
      }
  }

  lemma {:induction false} AllBackExact(t: Expr, lits: Literals)
    ensures AllBack(t, lits) <==> forall a :: a in AtomsOf(t) ==> Back(a, lits).Ok?
  {
    match t
    case Attr(_) =>
    case Not(x) => AllBackExact(x, lits);
    case Prec(x) => AllBackExact(x, lits);
    case Logic(_, l, r) => AllBackExact(l, lits); AllBackExact(r, lits);
  }

  /** `t` is one of the parse trees of the text emitted for `e`. */
  ghost predicate Reads(e: Expr, t: Expr) {
    ReadText(MapFilter(e)).Some? && TreeOf(ReadText(MapFilter(e)).value, t)
  }

  /** Emitting `e`, reading it as `t`, mapping back and printing gives a rule that means `e`. */
  predicate Returns(e: Expr, t: Expr, lits: Literals, v: Valuation) {
    var r := MapBack(t, lits);
    r.Ok? && TextMeaning(SerializeExpression(r.value), v) == Some(Eval(e, v))
  }

  /** What comes back means the emitted text, as its comparisons have come back. */
  lemma BackMeaning(e: Expr, t: Expr, lits: Literals)
    requires Reads(e, t)
    ensures AtomsOf(t) == AtomsOf(e)
    ensures MapBack(t, lits).Ok? <==> AllBack(t, lits)
    ensures MapBack(t, lits).Ok? ==> forall v ::
      TextMeaning(SerializeExpression(MapBack(t, lits).value), v) == Some(TextEval(e, Through(v, lits)))
  {
    var lv := CelLevel(e, false);
    EmitSpells(e, false);
    ReadTextInverse(lv);
    TreeAtoms(lv, t);
    CelAtoms(e);
    MapAst(t, false, lits);
    if MapBack(t, lits).Ok? {
      forall v
        ensures TextMeaning(SerializeExpression(MapBack(t, lits).value), v) == Some(TextEval(e, Through(v, lits)))
      {
        SerializeMeaning(MapBack(t, lits).value, v);
        TreeOfEval(lv, t, Through(v, lits));
        LevelTextEval(e, false, Through(v, lits));
      }
    }
  }

  lemma ThroughSame(e: Expr, lits: Literals, v: Valuation)
    requires Sane(lits) && Survives(AtomsOf(e), lits)
    ensures TextEval(e, Through(v, lits)) == TextEval(e, v)
  {
    forall a | a in AtomsOf(e) ensures Through(v, lits)(a) == v(a) {
      BackExact(a, lits);
    }
    TextLocal(e, Through(v, lits), v);
  }

  /** Main result: when every comparison survives, the rule that comes back means what the tree
      meant, under any grouping `t` of the runs. */
  lemma RoundTrip(e: Expr, t: Expr, lits: Literals, v: Valuation)
    requires Sane(lits) && Reads(e, t) && NoBareAndOr(e) && Survives(AtomsOf(e), lits)
    ensures Returns(e, t, lits, v)
  {
    BackMeaning(e, t, lits);
    forall a | a in AtomsOf(t) ensures Back(a, lits).Ok? {
      BackExact(a, lits);
    }
    AllBackExact(t, lits);
    ThroughSame(e, lits, v);
    CelLevelEval(e, false, v);
    LevelTextEval(e, false, v);
  }

  /** A comparison that comes back as another is missed by every valuation that has come back. */
  lemma LostAtom(e: Expr, a: Atom, lits: Literals) returns (v: Valuation)
    requires Sane(lits) && ReadOnce(e) && a in AtomsOf(e) && !AtomSurvives(a, lits)
    requires forall c :: c in AtomsOf(e) ==> Back(c, lits).Ok?
    ensures TextEval(e, Through(v, lits)) != Eval(e, v)
  {
    var w := Sensitive(e, a);
    var v1, v2 := Set(w, a, true), Set(w, a, false);
    BackExact(a, lits);
    forall c | c in AtomsOf(e) ensures Through(v1, lits)(c) == Through(v2, lits)(c) {
      BackExact(c, lits);
      assert Back(c, lits).value != a;
    }
    TextLocal(e, Through(v1, lits), Through(v2, lits));
    v := if TextEval(e, Through(v1, lits)) != Eval(e, v1) then v1 else v2;
  }

  /** Main result, for trees in which no comparison occurs twice and any grouping `t`: the rule comes
      back with its meaning under every valuation exactly when the emitter writes enough brackets and
      every comparison is of a kind the reader gives back. */
  lemma RoundTripExact(e: Expr, t: Expr, lits: Literals)
    requires Sane(lits) && Reads(e, t) && ReadOnce(e)
    ensures (forall v :: Returns(e, t, lits, v)) <==> NoBareAndOr(e) && Survives(AtomsOf(e), lits)
  {
    BackMeaning(e, t, lits);
    AllBackExact(t, lits);
    if NoBareAndOr(e) && Survives(AtomsOf(e), lits) {
      forall v ensures Returns(e, t, lits, v) {
        RoundTrip(e, t, lits, v);
      }
    } else if MapBack(t, lits).Ok? {
      var v: Valuation;
      if Survives(AtomsOf(e), lits) {
        v := BadDiffers(e);
        ThroughSame(e, lits, v);
      } else {
        var a :| a in AtomsOf(e) && !AtomSurvives(a, lits);
        v := LostAtom(e, a, lits);
      }
      assert !Returns(e, t, lits, v);
    } else {
      var v: Valuation := a => true;
      assert !Returns(e, t, lits, v);
    }
  }

  /** The same for every rule ParseFilter accepts: there always is a reading, the brackets are
      always enough, and so the comparisons alone decide. */
  lemma ParsedRoundTrip(ts: seq<Tok>, t: Expr, lits: Literals)
    requires Sane(lits) && ParseTokens(ts).Ok?
    ensures var e := ParseTokens(ts).value;
      && (exists tree :: Reads(e, tree))
      && (Reads(e, t) && Survives(AtomsOf(e), lits) ==> forall v :: Returns(e, t, lits, v))
      && (Reads(e, t) && ReadOnce(e) ==>
            ((forall v :: Returns(e, t, lits, v)) <==> Survives(AtomsOf(e), lits)))
  {
    var e := ParseTokens(ts).value;
    RunShape(ts, START);
    ParsedHasNoBareAndOr(e, true);
    EmitSpells(e, false);
    ReadTextInverse(CelLevel(e, false));
    RightTreeIsTree(CelLevel(e, false));
    assert Reads(e, RightTree(CelLevel(e, false)));
    if Reads(e, t) && Survives(AtomsOf(e), lits) {
      forall v ensures Returns(e, t, lits, v) {
        RoundTrip(e, t, lits, v);
      }
    }
    if Reads(e, t) && ReadOnce(e) {
      RoundTripExact(e, t, lits);
    }
  }

  /** A path of three names: compared, it panics; as a method's target it is lost; tested for
      presence, it is cut. */
  lemma ThreeNamesExample(a: string, b: string, c: string, lits: Literals)
    requires Split(a + "." + b + "." + c, '.') == [a, b, c] && Dotted(a + "." + b + "." + c)
    ensures var p := a + "." + b + "." + c;
      && Back(Atom(p, EQ, "true"), lits) == Err(Panics)
      && Back(Atom(p, SW, EMPTY), lits) == Ok(Atom(EMPTY, SW, EMPTY))
      && Back(Atom(p, PR, ""), lits) == Ok(Atom("." + c, PR, ""))
  {
    var p := a + "." + b + "." + c;
    DottedRead(p, lits);
    assert [a, b, c][..2] == [a, b] && [a, b][..1] == [a];
    assert Chain([a, b, c]) == Select(Chain([a, b]), c, false);
    assert Chain([a, b]) == Select(Chain([a]), b, false);
    assert "" + "." + c == "." + c;
    QuotedEmpty();
  }
}
