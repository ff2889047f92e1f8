/** The IDQL condition parser, `ParseFilter`: one left-to-right loop over words, blanks,
    brackets and `not`, with the flags and the clause list of the original.

    Lexing inside a word is not modelled: a word is a token, `not` is recognised only as
    its own token, and characters glued to an open word or value are refused as `Glued`.
    A `not` that ends the text is a word like any other (parser.go:299 wants a character after it). */
module Parser {
  import opened Idql
  import opened Strings

  datatype Tok = Word(text: string) | Sp | Open | Close | NotKw

  datatype ParseError = MissingOpen | MissingClose | Unsupported(op: string) | Incomplete | MissingLogic | Glued

  type Parse = Result<Expr, ParseError>

  // ----- words

  function OpWord(op: CompareOp): string {
    match op
    case EQ => "eq" case NE => "ne" case SW => "sw" case EW => "ew" case GT => "gt" case LT => "lt"
    case GE => "ge" case LE => "le" case CO => "co" case IN => "in" case PR => "pr" case IS => "is"
  }

  /** The operators createExpression accepts; `is` is not among them. */
  function OpOf(w: string): Option<CompareOp> {
    if w == "eq" then Some(EQ) else if w == "ne" then Some(NE) else if w == "sw" then Some(SW)
    else if w == "ew" then Some(EW) else if w == "gt" then Some(GT) else if w == "lt" then Some(LT)
    else if w == "ge" then Some(GE) else if w == "le" then Some(LE) else if w == "co" then Some(CO)
    else if w == "in" then Some(IN) else if w == "pr" then Some(PR) else None
  }

  predicate IsLogicWord(w: string) {
    ToLower(w) == "and" || ToLower(w) == "or"
  }

  predicate EndsWithClose(w: string) {
    w != "" && w[|w| - 1] == ')'
  }

  function CreateExpression(attr: string, cond: string, value: string): Parse {
    match OpOf(ToLower(cond))
    case None => Err(Unsupported(cond))
    case Some(op) => Ok(Attr(Atom(attr, op, if op == PR then "" else value)))
  }

  // ----- the loop's variables and what one token does to them

  datatype State = State(
    clauses: seq<Expr>, isLogic: bool, isAnd: bool, isNot: bool,
    isAttr: bool, isExpr: bool, isValue: bool, attr: string, cond: string, word: string)

  const START := State([], false, false, false, false, false, false, "", "", "")

  /** A character of a word moves the phrase one step: attribute, operator, value. */
  function Flag(st: State): State {
    if !st.isAttr then st.(isAttr := true)
    else if !st.isExpr && st.attr != "" then st.(isExpr := true)
    else if !st.isValue && st.cond != "" then st.(isValue := true)
    else st
  }

  function LogicOpOf(isAnd: bool): LogicOp {
    if isAnd then And else Or
  }

  /** The check after every character: two clauses and an operator become one clause. */
  function Combine(st: State): State {
    if st.isLogic && |st.clauses| == 2 then
      st.(clauses := [Logic(LogicOpOf(st.isAnd), st.clauses[0], st.clauses[1])], isLogic := false)
    else st
  }

  /** A finished comparison joins the clauses and the phrase starts afresh. */
  function PushAtom(st: State, e: Expr): State {
    st.(clauses := st.clauses + [e], isAttr := false, isExpr := false, isValue := false,
        attr := "", cond := "", word := "")
  }

  /** A blank ends the word in progress. */
  function EndWord(st: State): Result<State, ParseError> {
    if st.word == "" then Ok(st)
    else if IsLogicWord(st.word) then
      Ok(st.(isLogic := true, isAnd := ToLower(st.word) == "and", word := ""))
    else if st.isAttr && st.attr == "" then Ok(st.(attr := st.word, word := ""))
    else if st.isExpr && st.cond == "" then
      if ToLower(st.word) == "pr" then Ok(PushAtom(st, Attr(Atom(st.attr, PR, ""))))
      else Ok(st.(cond := st.word, word := ""))
    else if st.isValue then
      if EndsWithClose(st.word) then Err(MissingOpen)
      else match CreateExpression(st.attr, st.cond, st.word)
        case Err(e) => Err(e)
        case Ok(x) => Ok(PushAtom(st, x))
    else Ok(st)
  }

  /** A bracket group becomes a negated clause once any `not` was seen at this level. */
  function PushGroup(st: State, e: Expr): State {
    st.(clauses := st.clauses + [if st.isNot then Not(e) else Prec(e)])
  }

  /** Every token except a bracket that opens a group. */
  function Step(st: State, t: Tok): Result<State, ParseError>
    requires t != Open || st.isValue || st.word != ""
  {
    match t
    case Word(w) =>
      if w == "" then Ok(st) else if st.word != "" then Err(Glued) else Ok(Flag(st).(word := w))
    case Sp =>
      (match EndWord(st)
       case Err(e) => Err(e)
       case Ok(st') => Ok(Combine(st')))
    case Open => if st.word != "" then Err(Glued) else Ok(st)
    case Close =>
      if !st.isValue then Err(MissingOpen)
      else if st.word == "" then Ok(st)
      else Ok(st.(word := st.word + ")"))
    case NotKw => if st.word != "" || st.isValue then Err(Glued) else Ok(st.(isNot := true))
  }

  /** The code after the loop. */
  function Finish(st: State): Parse {
    var st' :=
      if st.word == "" then Ok(st)
      else if st.attr == "" then Err(Incomplete)
      else if st.isAttr && st.cond != "" then
        if EndsWithClose(st.word) then Err(MissingOpen)
        else match CreateExpression(st.attr, st.cond, st.word)
          case Err(e) => Err(e)
          case Ok(x) => Ok(st.(clauses := st.clauses + [x]))
      else Ok(st.(clauses := st.clauses + [Attr(Atom(st.attr, PR, ""))]));
    match st'
    case Err(e) => Err(e)
    case Ok(s) =>
      if s.isLogic && |s.clauses| == 2 then Ok(Logic(LogicOpOf(s.isAnd), s.clauses[0], s.clauses[1]))
      else if |s.clauses| == 1 then Ok(s.clauses[0])
      else Err(MissingLogic)
  }

  /** Index in `ts` of the bracket that closes `depth` open ones, or |ts|. */
  function MatchClose(ts: seq<Tok>, depth: nat): (j: nat)
    requires depth > 0
    ensures j <= |ts|
    ensures j < |ts| ==> ts[j] == Close
  {
    if ts == [] then 0
    else if ts[0] == Close && depth == 1 then 0
    else 1 + MatchClose(ts[1..], if ts[0] == Close then depth - 1 else if ts[0] == Open then depth + 1 else depth)
  }

  /** The token the loop acts on: a `not` with nothing after it is a word. */
  function Head(ts: seq<Tok>): Tok
    requires ts != []
  {
    if ts == [NotKw] then Word("not") else ts[0]
  }

  /** The rest of the run from a given state. */
  function Run(ts: seq<Tok>, st: State): Parse
    decreases |ts|
  {
    if ts == [] then Finish(st)
    else if ts[0] == Open && !st.isValue && st.word == "" then
      var rest := ts[1..];
      var j := MatchClose(rest, 1);
      if j == |rest| then Err(MissingClose)
      else match Run(rest[..j], START)
        case Err(e) => Err(e)
        case Ok(e) => Run(rest[j + 1..], Combine(PushGroup(st, e)))
    else match Step(st, Head(ts))
      case Err(e) => Err(e)
      case Ok(st') => Run(ts[1..], st')
  }

  function ParseTokens(ts: seq<Tok>): Parse {
    Run(ts, START)
  }

  /** The inner loop: from just after an opening bracket to its match, or to the end. */
  method ScanGroup(ts: seq<Tok>, start: nat) returns (charPos: nat)
    requires start <= |ts|
    ensures charPos == start + MatchClose(ts[start..], 1)
  {
    charPos := start;
    var bracketCount := 1;
    while charPos < |ts| && bracketCount > 0
      invariant start <= charPos <= |ts|
      invariant bracketCount > 0 ==>
        start + MatchClose(ts[start..], 1) == charPos + MatchClose(ts[charPos..], bracketCount)
      invariant bracketCount == 0 ==> charPos == start + MatchClose(ts[start..], 1)
      decreases |ts| - charPos, bracketCount
    {
      assert ts[charPos..][1..] == ts[charPos + 1..];
      if ts[charPos] == Open {
        bracketCount := bracketCount + 1;
      } else if ts[charPos] == Close {
        bracketCount := bracketCount - 1;
      }
      if bracketCount > 0 {
        charPos := charPos + 1;
      }
    }
  }

  /** A bracket group: its text is parsed as a filter of its own. */
  method ParseGroup(ts: seq<Tok>, bracketIndex: nat) returns (sub: Parse, charPos: nat)
    requires bracketIndex < |ts| && ts[bracketIndex] == Open
    ensures charPos == bracketIndex + 1 + MatchClose(ts[bracketIndex + 1..], 1)
    ensures sub == if charPos == |ts| then Err(MissingClose) else ParseTokens(ts[bracketIndex + 1..charPos])
    decreases |ts|, 0
  {
    charPos := ScanGroup(ts, bracketIndex + 1);
    if charPos == |ts| {
      return Err(MissingClose), charPos;
    }
    sub := ParseFilter(ts[bracketIndex + 1..charPos]);
  }

  /** One group, as the run sees it. */
  lemma RunGroupAt(ts: seq<Tok>, st: State, j: nat)
    requires ts != [] && ts[0] == Open && !st.isValue && st.word == "" && j == MatchClose(ts[1..], 1)
    ensures Run(ts, st) ==
      if j == |ts| - 1 then Err(MissingClose)
      else if ParseTokens(ts[1..][..j]).Err? then ParseTokens(ts[1..][..j])
      else Run(ts[1..][j + 1..], Combine(PushGroup(st, ParseTokens(ts[1..][..j]).value)))
  {}

  lemma RunStepAt(ts: seq<Tok>, st: State)
    requires ts != [] && (ts[0] != Open || st.isValue || st.word != "")
    ensures Run(ts, st) ==
      if Step(st, Head(ts)).Err? then Err(Step(st, Head(ts)).error) else Run(ts[1..], Step(st, Head(ts)).value)
  {}

  lemma GroupTurn(ts: seq<Tok>, charPos: nat, st: State, sub: Parse, after: nat)
    requires charPos < |ts| && ts[charPos] == Open && !st.isValue && st.word == ""
    requires after == charPos + 1 + MatchClose(ts[charPos + 1..], 1)
    requires sub == if after == |ts| then Err(MissingClose) else ParseTokens(ts[charPos + 1..after])
    ensures sub.Err? ==> Run(ts[charPos..], st) == sub
    ensures sub.Ok? ==>
      after < |ts| && Run(ts[charPos..], st) == Run(ts[after + 1..], Combine(PushGroup(st, sub.value)))
  {
    var here, j := ts[charPos..], after - charPos - 1;
    assert here[1..] == ts[charPos + 1..];
    RunGroupAt(here, st, j);
    if after < |ts| {
      assert here[1..][..j] == ts[charPos + 1..after];
      assert here[1..][j + 1..] == ts[after + 1..];
    }
  }

  /** The rest of the run after one turn that ended at `after`. */
  function Resume(ts: seq<Tok>, next: Result<State, ParseError>, after: nat): Parse
    requires next.Ok? ==> after < |ts|
  {
    match next
    case Err(e) => Err(e)
    case Ok(st) => Run(ts[after + 1..], st)
  }

  /** One turn of the outer loop: a token, or a whole bracket group. */
  method ParseToken(ts: seq<Tok>, charPos: nat, st: State) returns (next: Result<State, ParseError>, after: nat)
    requires charPos < |ts|
    ensures charPos <= after && (next.Ok? ==> after < |ts|)
    ensures Run(ts[charPos..], st) == Resume(ts, next, after)
    decreases |ts|, 1
  {
    if ts[charPos] == Open && !st.isValue && st.word == "" {
      var sub;
      sub, after := ParseGroup(ts, charPos);
      GroupTurn(ts, charPos, st, sub, after);
      if sub.Err? {
        return Err(sub.error), after;
      }
      return Ok(Combine(PushGroup(st, sub.value))), after;
    }
    RunStepAt(ts[charPos..], st);
    assert ts[charPos..][1..] == ts[charPos + 1..];
    return Step(st, Head(ts[charPos..])), charPos;
  }

  /** The outer loop. */
  method ParseFilter(ts: seq<Tok>) returns (r: Parse)
    ensures r == ParseTokens(ts)
    decreases |ts|, 2
  {
    var st := START;
    var charPos := 0;
    assert ts[0..] == ts;
    while charPos < |ts|
      invariant charPos <= |ts|
      invariant Run(ts[charPos..], st) == Run(ts, START)
    {
      var next;
      next, charPos := ParseToken(ts, charPos, st);
      if next.Err? {
        return Err(next.error);
      }
      st := next.value;
      charPos := charPos + 1;
    }
    r := Finish(st);
  }
}
