/** IDQL entity paths: the character loop that reads them and the printer that writes them. */
module EntityPath {
  import opened Strings

  datatype Entity =
    | AnyUser
    | AnyAuthenticated
    | Empty
    | Is(types: seq<string>)
    | Equal(types: seq<string>, id: string)
    | InSet(members: seq<Entity>)
    | IsIn(types: seq<string>, members: seq<Entity>)

  // ----- the reader

  datatype State = State(typePath: seq<string>, sets: seq<Entity>, sb: string, setb: string, isSet: bool)

  const START := State([], [], "", "", false)

  /** The loop over the rest of `s`; `n` bounds the text that can become members. */
  function Scan(s: string, st: State, n: nat): State
    requires |s| + |st.setb| <= n
    decreases n, 1, |s|
  {
    if s == "" then st
    else
      var r := s[0];
      if r == ':' && !st.isSet then Scan(s[1..], st.(typePath := st.typePath + [st.sb], sb := ""), n)
      else if r == '[' then
        Scan(s[1..], if st.sb != "" then st.(isSet := true, typePath := st.typePath + [st.sb], sb := "")
                     else st.(isSet := true), n)
      else if r == ']' then
        SplitFree(st.setb, ',');
        Scan(s[1..], st.(isSet := false, sets := st.sets + ParseAll(Split(st.setb, ','), n), setb := ""), n)
      else if st.isSet then Scan(s[1..], st.(setb := st.setb + [r]), n)
      else Scan(s[1..], st.(sb := st.sb + [r]), n)
  }

  function ParseAll(members: seq<string>, n: nat): (r: seq<Entity>)
    requires forall i :: 0 <= i < |members| ==> |members[i]| < n
    ensures |r| == |members|
    ensures forall i :: 0 <= i < |members| ==> r[i] == ParseEntity(members[i])
    decreases n, 0, |members|
  {
    if members == [] then [] else [ParseEntity(members[0])] + ParseAll(members[1..], n)
  }

  function Finish(st: State): Entity {
    if st.sb != "" && ToLower(st.sb) == "any" then AnyUser
    else if st.sb != "" && ToLower(st.sb) == "anyauthenticated" then AnyAuthenticated
    else if st.sets != [] then if st.typePath == [] then InSet(st.sets) else IsIn(st.typePath, st.sets)
    else if st.sb == "" then Is(st.typePath)
    else Equal(st.typePath, st.sb)
  }

  function ParseEntity(value: string): Entity
    decreases |value|, 2
  {
    if value == "" then Empty else Finish(Scan(value, START, |value|))
  }

  /** The loop as the source runs it. */
  method Parse(value: string) returns (e: Entity)
    ensures e == ParseEntity(value)
    decreases |value|
  {
    if value == "" {
      return Empty;
    }
    var typePath: seq<string> := [];
    var sets: seq<Entity> := [];
    var sb, setb, isSet := "", "", false;
    for i := 0 to |value|
      invariant |setb| <= i
      invariant Scan(value, START, |value|) == Scan(value[i..], State(typePath, sets, sb, setb, isSet), |value|)
    {
      var r := value[i];
      assert value[i..][1..] == value[i + 1..];
      if r == ':' && !isSet {
        typePath, sb := typePath + [sb], "";
      } else if r == '[' {
        isSet := true;
        if |sb| > 0 {
          typePath, sb := typePath + [sb], "";
        }
      } else if r == ']' {
        isSet := false;
        var inset := Split(setb, ',');
        SplitFree(setb, ',');
        var members := ParseMembers(inset, |value|);
        sets, setb := sets + members, "";
      } else if isSet {
        setb := setb + [r];
      } else {
        sb := sb + [r];
      }
    }
    e := Finish(State(typePath, sets, sb, setb, isSet));
  }

  method ParseMembers(inset: seq<string>, n: nat) returns (members: seq<Entity>)
    requires forall i :: 0 <= i < |inset| ==> |inset[i]| < n
    ensures members == ParseAll(inset, n)
    decreases n, 0
  {
    members := [];
    for i := 0 to |inset|
      invariant |members| == i && forall k :: 0 <= k < i ==> members[k] == ParseEntity(inset[k])
    {
      var entitypath := Parse(inset[i]);
      members := members + [entitypath];
    }
  }

  // ----- the printer

  function Print(e: Entity): string {
    match e
    case AnyUser => "any"
    case AnyAuthenticated => "anyAuthenticated"
    case Empty => ""
    case Equal(types, id) => if types == [] then id else Join(types, ':') + ":" + id
    case Is(types) => Join(types, ':') + ":"
    case IsIn(types, members) => Join(types, ':') + ("[" + Join(PrintAll(members), ',') + "]")
    case InSet(members) => "[" + Join(PrintAll(members), ',') + "]"
  }

  function PrintAll(es: seq<Entity>): (r: seq<string>)
    ensures |r| == |es|
    ensures forall i :: 0 <= i < |es| ==> r[i] == Print(es[i])
  {
    if es == [] then [] else [Print(es[0])] + PrintAll(es[1..])
  }

  // ----- bracket-free text

  predicate Plain(s: string) {
    '[' !in s && ']' !in s
  }

  function Last(ss: seq<string>): string
    requires ss != []
  {
    ss[|ss| - 1]
  }

  /** The piece after the last colon. */
  function LastSegment(s: string): string {
    Last(Split(s, ':'))
  }

  predicate AnyLike(w: string) {
    ToLower(w) == "any" || ToLower(w) == "anyauthenticated"
  }

  /** Outside a set, text without brackets adds its colon-separated pieces; the last stays open. */
  function AfterPlain(s: string, st: State): State {
    var pieces := Split(st.sb + s, ':');
    st.(typePath := st.typePath + pieces[..|pieces| - 1], sb := Last(pieces))
  }

  lemma AfterPlainEmpty(st: State)
    requires ':' !in st.sb
    ensures AfterPlain("", st) == st
  {
    SplitPrefix(st.sb, "", ':');
    assert st.sb + "" == st.sb;
    assert Split(st.sb, ':') == [st.sb];
    assert st.typePath + [] == st.typePath;
  }

  lemma AfterPlainColon(s: string, st: State)
    requires s != "" && s[0] == ':' && ':' !in st.sb
    ensures AfterPlain(s, st) == AfterPlain(s[1..], st.(typePath := st.typePath + [st.sb], sb := ""))
  {
    SplitPrefix(st.sb, s, ':');
    assert "" + s[1..] == s[1..] && st.sb + "" == st.sb;
    var pieces, rest := Split(st.sb + s, ':'), Split(s[1..], ':');
    assert pieces == [st.sb] + rest;
    assert st.typePath + pieces[..|pieces| - 1] == st.typePath + [st.sb] + rest[..|rest| - 1];
  }

  lemma {:induction false} ScanPlain(s: string, k: string, st: State, n: nat)
    requires Plain(s) && !st.isSet && ':' !in st.sb && |s| + |k| + |st.setb| <= n
    ensures Scan(s + k, st, n) == Scan(k, AfterPlain(s, st), n)
    decreases |s|
  {
    if s == "" {
      AfterPlainEmpty(st);
      assert s + k == k;
    } else {
      var t := s + k;
      assert t[0] == s[0] && t[1..] == s[1..] + k;
      assert Plain(s[1..]);
      if s[0] == ':' {
        AfterPlainColon(s, st);
        ScanPlain(s[1..], k, st.(typePath := st.typePath + [st.sb], sb := ""), n);
      } else {
        var st' := st.(sb := st.sb + [s[0]]);
        assert st.sb + s == st'.sb + s[1..];
        ScanPlain(s[1..], k, st', n);
      }
    }
  }

  /** Inside a set, text without brackets is collected as it is. */
  lemma {:induction false} ScanSet(s: string, k: string, st: State, n: nat)
    requires Plain(s) && st.isSet && |s| + |k| + |st.setb| <= n
    ensures Scan(s + k, st, n) == Scan(k, st.(setb := st.setb + s), n)
    decreases |s|
  {
    if s == "" {
      assert s + k == k && st.setb + "" == st.setb;
    } else {
      assert (s + k)[1..] == s[1..] + k;
      var st' := st.(setb := st.setb + [s[0]]);
      ScanSet(s[1..], k, st', n);
      assert st.setb + s == st'.setb + s[1..];
    }
  }

  lemma ParsePlain(s: string)
    requires Plain(s) && s != ""
    ensures var pieces := Split(s, ':');
      ParseEntity(s) ==
        if AnyLike(Last(pieces)) then (if ToLower(Last(pieces)) == "any" then AnyUser else AnyAuthenticated)
        else if Last(pieces) == "" then Is(pieces[..|pieces| - 1])
        else Equal(pieces[..|pieces| - 1], Last(pieces))
  {
    assert s + "" == s && "" + s == s;
    ScanPlain(s, "", START, |s|);
    var pieces := Split(s, ':');
    assert [] + pieces[..|pieces| - 1] == pieces[..|pieces| - 1];
  }

  lemma PiecesJoin(s: string)
    ensures var pieces := Split(s, ':');
      s == if |pieces| == 1 then Last(pieces) else Join(pieces[..|pieces| - 1], ':') + ":" + Last(pieces)
  {
    var pieces := Split(s, ':');
    JoinSplit(s, ':');
    if |pieces| > 1 {
      assert pieces == pieces[..|pieces| - 1] + [Last(pieces)];
      JoinSnoc(pieces[..|pieces| - 1], Last(pieces), ':');
    }
  }

  /** When a bracket-free text survives: no any-like last piece, unless it is the whole keyword. */
  predicate PlainSurvives(s: string) {
    !AnyLike(LastSegment(s)) || s == "any" || s == "anyAuthenticated"
  }

  lemma KeywordsLower()
    ensures ToLower("any") == "any" && ToLower("anyAuthenticated") == "anyauthenticated" && ToLower("") == ""
  {
    var w, l := "anyAuthenticated", "anyauthenticated";
    assert forall i :: 0 <= i < |w| ==> LowerChar(w[i]) == l[i];
  }

  /** What printing a parsed bracket-free text gives. */
  function PlainResult(s: string): string {
    if ToLower(LastSegment(s)) == "any" then "any"
    else if ToLower(LastSegment(s)) == "anyauthenticated" then "anyAuthenticated"
    else s
  }

  lemma PlainPrint(s: string)
    requires Plain(s)
    ensures Print(ParseEntity(s)) == PlainResult(s)
  {
    if s == "" {
      assert Split("", ':') == [""];
    } else {
      ParsePlain(s);
      PiecesJoin(s);
    }
  }

  lemma NoColonLast(s: string)
    requires ':' !in s
    ensures LastSegment(s) == s
  {
    SplitPrefix(s, "", ':');
    assert s + "" == s;
  }

  /** A keyword is its own last piece. */
  lemma KeywordSurvives(w: string, k: string)
    requires ':' !in w && ToLower(w) == k
    ensures ToLower(LastSegment(w)) == k
  {
    NoColonLast(w);
  }

  lemma PlainResultFixed(s: string)
    ensures PlainResult(s) == s <==> PlainSurvives(s)
  {
    KeywordsLower();
    KeywordSurvives("any", "any");
    KeywordSurvives("anyAuthenticated", "anyauthenticated");
    assert "any" != "anyauthenticated";
  }

  lemma PlainResultChars(s: string, c: char)
    requires c !in s && (c == '[' || c == ']' || c == ',')
    ensures c !in PlainResult(s)
  {
    assert c !in "any" && c !in "anyAuthenticated";
  }

  // ----- text with a set

  /** `types[members]`, both parts without brackets. */
  function SetText(t: string, m: string): string {
    t + ("[" + m + "]")
  }

  function TypePath(t: string): seq<string> {
    var pieces := Split(t, ':');
    if Last(pieces) == "" then pieces[..|pieces| - 1] else pieces
  }

  function Members(m: string): seq<Entity> {
    SplitFree(m, ',');
    ParseAll(Split(m, ','), |m| + 1)
  }

  /** The types are read, the bracket closes them. */
  lemma ScanTypes(t: string, k: string, n: nat)
    requires Plain(t) && |t| + |k| + 1 <= n
    ensures Scan(t + (['['] + k), START, n) == Scan(k, START.(typePath := TypePath(t), isSet := true), n)
  {
    var pieces := Split(t, ':');
    assert "" + t == t && [] + pieces[..|pieces| - 1] == pieces[..|pieces| - 1];
    ScanPlain(t, ['['] + k, START, n);
    assert (['['] + k)[1..] == k;
    assert pieces == pieces[..|pieces| - 1] + [Last(pieces)];
  }

  /** The members are collected, the bracket parses them. */
  lemma ScanMembers(m: string, k: string, st: State, n: nat)
    requires Plain(m) && st.isSet && st.sets == [] && st.setb == "" && |m| + 1 + |k| <= n
    ensures Scan(m + ([']'] + k), st, n) == Scan(k, st.(isSet := false, sets := Members(m)), n)
  {
    ScanSet(m, [']'] + k, st, n);
    assert "" + m == m && ([']'] + k)[1..] == k;
    SplitFree(m, ',');
    var es := ParseAll(Split(m, ','), n);
    assert [] + es == es && es == Members(m);
  }

  lemma ParseSet(t: string, m: string)
    requires Plain(t) && Plain(m)
    ensures Members(m) != []
    ensures ParseEntity(SetText(t, m)) ==
      if TypePath(t) == [] then InSet(Members(m)) else IsIn(TypePath(t), Members(m))
  {
    ParseSetBehind(t, m, "");
    assert SetText(t, m) + "" == SetText(t, m) && Split("", ':') == [""];
    assert TypePath(t) + [] == TypePath(t);
  }

  /** What stands behind a set: a last piece that is a keyword takes the whole, any other is lost, and
      the pieces before it are added to the types. */
  lemma ParseSetBehind(t: string, m: string, k: string)
    requires Plain(t) && Plain(m) && Plain(k)
    ensures Members(m) != []
    ensures var pieces := Split(k, ':');
      var types := TypePath(t) + pieces[..|pieces| - 1];
      ParseEntity(SetText(t, m) + k) ==
        if AnyLike(Last(pieces)) then (if ToLower(Last(pieces)) == "any" then AnyUser else AnyAuthenticated)
        else if types == [] then InSet(Members(m)) else IsIn(types, Members(m))
  {
    var s := SetText(t, m) + k;
    assert s == t + (['['] + (m + ([']'] + k)));
    ScanTypes(t, m + ([']'] + k), |s|);
    ScanMembers(m, k, START.(typePath := TypePath(t), isSet := true), |s|);
    var st := START.(typePath := TypePath(t), sets := Members(m));
    assert k + "" == k && "" + k == k;
    ScanPlain(k, "", st, |s|);
  }

  /** A set that is not closed is lost. */
  lemma ParseUnclosed(t: string, m: string)
    requires Plain(t) && Plain(m)
    ensures ParseEntity(t + (['['] + m)) == Is(TypePath(t))
  {
    var s := t + (['['] + m);
    ScanTypes(t, m, |s|);
    ScanSet(m, "", START.(typePath := TypePath(t), isSet := true), |s|);
    assert m + "" == m;
  }

  /** A closing bracket that closes nothing stands for a set of one empty member, and the piece it
      interrupts goes on behind it. */
  lemma ParseUnopened(t: string, k: string)
    requires Plain(t) && Plain(k)
    ensures var pieces := Split(t + k, ':');
      ParseEntity(t + ([']'] + k)) ==
        if AnyLike(Last(pieces)) then (if ToLower(Last(pieces)) == "any" then AnyUser else AnyAuthenticated)
        else if |pieces| == 1 then InSet([Empty]) else IsIn(pieces[..|pieces| - 1], [Empty])
  {
    var s := t + ([']'] + k);
    var st := AfterPlain(t, START);
    PlainContinues(t, k);
    ScanPlain(t, [']'] + k, START, |s|);
    ScanUnopened(k, st, |s|);
    var pieces := Split(t + k, ':');
    assert "" + (t + k) == t + k && [] + pieces[..|pieces| - 1] == pieces[..|pieces| - 1];
  }

  lemma ScanUnopened(k: string, st: State, n: nat)
    requires Plain(k) && !st.isSet && st.sets == [] && st.setb == "" && ':' !in st.sb && 1 + |k| <= n
    ensures Scan([']'] + k, st, n) == AfterPlain(k, st).(sets := [Empty])
  {
    assert ([']'] + k)[1..] == k && k + "" == k;
    SplitFree("", ',');
    assert Split("", ',') == [""];
    assert ParseAll([""], n) == [Empty] && [] + [Empty] == [Empty];
    ScanPlain(k, "", st.(sets := [Empty]), n);
  }

  lemma PlainContinues(t: string, k: string)
    requires Plain(t) && Plain(k)
    ensures AfterPlain(k, AfterPlain(t, START)) == AfterPlain(t + k, START)
    ensures ':' !in AfterPlain(t, START).sb
  {
    var s := t + k;
    SplitFree(t, ':');
    assert "" + t == t && s + "" == s && k + "" == k;
    ScanPlain(s, "", START, |s|);
    ScanPlain(t, k, START, |s|);
    ScanPlain(k, "", AfterPlain(t, START), |s|);
  }

  predicate MembersSurvive(m: string) {
    forall i :: 0 <= i < |Split(m, ',')| ==> PlainSurvives(Split(m, ',')[i])
  }

  predicate EndsWithColon(t: string) {
    t != "" && t[|t| - 1] == ':'
  }

  /** The members as they are printed: comma-free, and unchanged exactly when each survives. */
  lemma MembersPrint(m: string)
    requires Plain(m)
    ensures var r := Join(PrintAll(Members(m)), ',');
      Plain(r) && (r == m <==> MembersSurvive(m))
  {
    var pieces := Split(m, ',');
    SplitFree(m, ',');
    var ps := PrintAll(Members(m));
    forall i | 0 <= i < |pieces|
      ensures ps[i] == PlainResult(pieces[i]) && Plain(ps[i]) && ',' !in ps[i]
      ensures ps[i] == pieces[i] <==> PlainSurvives(pieces[i])
    {
      assert Plain(pieces[i]);
      PlainPrint(pieces[i]);
      PlainResultFixed(pieces[i]);
      PlainResultChars(pieces[i], '[');
      PlainResultChars(pieces[i], ']');
      PlainResultChars(pieces[i], ',');
    }
    JoinChars(ps, ',', '[');
    JoinChars(ps, ',', ']');
    JoinSplit(m, ',');
    if Join(ps, ',') == m {
      SplitJoin(ps, ',');
    }
    if MembersSurvive(m) {
      assert ps == pieces;
    }
  }

  /** The types as they are printed: a closing colon is lost, nothing else. */
  lemma {:induction false} TypesPrint(t: string)
    ensures Join(TypePath(t), ':') == t <==> !EndsWithColon(t)
    ensures Plain(t) ==> Plain(Join(TypePath(t), ':'))
    ensures TypePath(t) == [] <==> t == ""
  {
    TypesPlain(t);
    var pieces := Split(t, ':');
    PiecesJoin(t);
    JoinSplit(t, ':');
    if t == "" {
      assert pieces == [""];
    } else if Last(pieces) == "" {
      assert t[|t| - 1] == ':';
      assert |Join(pieces[..|pieces| - 1], ':')| < |t|;
    } else {
      SplitFree(t, ':');
      assert t[|t| - 1] == Last(pieces)[|Last(pieces)| - 1];
      assert t[|t| - 1] in Last(pieces);
    }
  }

  lemma TypesPlain(t: string)
    ensures Plain(t) ==> Plain(Join(TypePath(t), ':'))
  {
    if Plain(t) {
      SplitFree(t, ':');
      var pieces := Split(t, ':');
      forall i | 0 <= i < |TypePath(t)| ensures Plain(TypePath(t)[i]) {
        assert TypePath(t)[i] == pieces[i];
      }
      JoinChars(TypePath(t), ':', '[');
      JoinChars(TypePath(t), ':', ']');
    }
  }

  lemma SetRoundTrip(t: string, m: string)
    requires Plain(t) && Plain(m)
    ensures Print(ParseEntity(SetText(t, m))) == SetText(t, m) <==> !EndsWithColon(t) && MembersSurvive(m)
  {
    ParseSet(t, m);
    MembersPrint(m);
    TypesPrint(t);
    var t', m' := Join(TypePath(t), ':'), Join(PrintAll(Members(m)), ',');
    assert Print(ParseEntity(SetText(t, m))) == SetText(t', m');
    SetTextInjective(t', m', t, m);
  }

  lemma SetTextInjective(t: string, m: string, t': string, m': string)
    requires Plain(t) && Plain(t')
    ensures SetText(t, m) == SetText(t', m') <==> t == t' && m == m'
  {
    if SetText(t, m) == SetText(t', m') {
      assert SetText(t, m) == t + ['['] + (m + "]") && SetText(t', m') == t' + ['['] + (m' + "]");
      CutUnique(t, m + "]", t', m' + "]", '[');
      assert (m + "]")[..|m|] == m && (m' + "]")[..|m'|] == m';
    }
  }

  // ----- well-formed entities

  predicate Name(w: string) {
    Plain(w) && ':' !in w
  }

  predicate Names(ws: seq<string>) {
    forall i :: 0 <= i < |ws| ==> Name(ws[i])
  }

  predicate WellFormedSimple(e: Entity) {
    match e
    case Is(types) => types != [] && Names(types)
    case Equal(types, id) => Names(types) && Name(id) && id != "" && !AnyLike(id)
    case InSet(_) => false
    case IsIn(_, _) => false
    case _ => true
  }

  predicate WellFormedMember(e: Entity) {
    WellFormedSimple(e) && ',' !in Print(e)
  }

  predicate WellFormed(e: Entity) {
    match e
    case InSet(ms) => ms != [] && forall i :: 0 <= i < |ms| ==> WellFormedMember(ms[i])
    case IsIn(types, ms) =>
      && types != [] && Names(types) && Last(types) != ""
      && ms != [] && forall i :: 0 <= i < |ms| ==> WellFormedMember(ms[i])
    case _ => WellFormedSimple(e)
  }

  lemma NamesJoin(ws: seq<string>)
    requires ws != [] && Names(ws)
    ensures Split(Join(ws, ':'), ':') == ws && Plain(Join(ws, ':'))
  {
    SplitJoin(ws, ':');
    JoinChars(ws, ':', '[');
    JoinChars(ws, ':', ']');
  }

  lemma SimpleParsePrint(e: Entity)
    requires WellFormedSimple(e)
    ensures Plain(Print(e)) && ParseEntity(Print(e)) == e
  {
    match e
    case Is(types) => PiecesParse(types, "", e);
    case Equal(types, id) => PiecesParse(types, id, e);
    case AnyUser => KeywordsLower(); KeywordParse("any");
    case AnyAuthenticated => KeywordsLower(); KeywordParse("anyAuthenticated");
    case Empty =>
  }

  lemma KeywordParse(w: string)
    requires w != "" && Name(w) && AnyLike(w)
    ensures ParseEntity(w) == if ToLower(w) == "any" then AnyUser else AnyAuthenticated
  {
    NoColonLast(w);
    ParsePlain(w);
  }

  lemma PiecesParse(types: seq<string>, last: string, e: Entity)
    requires Names(types) && Name(last) && !AnyLike(last) && (types != [] || last != "")
    requires e == if last == "" then Is(types) else Equal(types, last)
    ensures Plain(Print(e)) && ParseEntity(Print(e)) == e
  {
    var pieces := types + [last];
    NamesJoin(pieces);
    if types == [] {
      assert pieces == [last];
    } else {
      JoinSnoc(types, last, ':');
    }
    assert Print(e) == Join(pieces, ':');
    ParsePlain(Print(e));
    assert pieces[..|pieces| - 1] == types;
  }

  lemma MembersParsePrint(ms: seq<Entity>)
    requires ms != [] && forall i :: 0 <= i < |ms| ==> WellFormedMember(ms[i])
    ensures var m := Join(PrintAll(ms), ','); Plain(m) && Members(m) == ms
  {
    var ps := PrintAll(ms);
    forall i | 0 <= i < |ps| ensures Plain(ps[i]) && ',' !in ps[i] && ParseEntity(ps[i]) == ms[i] {
      SimpleParsePrint(ms[i]);
    }
    MembersParse(ps, ms);
  }

  lemma MembersParse(ps: seq<string>, ms: seq<Entity>)
    requires |ps| == |ms| > 0
    requires forall i :: 0 <= i < |ps| ==> Plain(ps[i]) && ',' !in ps[i] && ParseEntity(ps[i]) == ms[i]
    ensures Plain(Join(ps, ',')) && Members(Join(ps, ',')) == ms
  {
    JoinChars(ps, ',', '[');
    JoinChars(ps, ',', ']');
    SplitJoin(ps, ',');
    SplitFree(Join(ps, ','), ',');
    var es := ParseAll(ps, |Join(ps, ',')| + 1);
    assert forall i :: 0 <= i < |es| ==> es[i] == ms[i];
  }

  // ----- every text

  /** What the loop keeps whatever the text: no bracket or colon gets into a name, and members are
      well formed. */
  predicate Clean(st: State) {
    && Names(st.typePath) && Name(st.sb) && Plain(st.setb)
    && forall i :: 0 <= i < |st.sets| ==> WellFormedMember(st.sets[i])
  }

  lemma PlainWellFormed(s: string)
    requires Plain(s)
    ensures WellFormedSimple(ParseEntity(s))
  {
    if s != "" {
      ParsePlain(s);
      SplitFree(s, ':');
      var pieces := Split(s, ':');
      if |pieces| == 1 {
        JoinSplit(s, ':');
      }
    }
  }

  lemma MembersClean(setb: string, n: nat)
    requires Plain(setb) && |setb| < n
    ensures forall i :: 0 <= i < |Split(setb, ',')| ==> |Split(setb, ',')[i]| < n
    ensures forall i :: 0 <= i < |Split(setb, ',')| ==> WellFormedMember(ParseAll(Split(setb, ','), n)[i])
  {
    SplitFree(setb, ',');
    var pieces := Split(setb, ',');
    forall i | 0 <= i < |pieces| ensures WellFormedMember(ParseAll(pieces, n)[i]) {
      assert Plain(pieces[i]);
      PlainWellFormed(pieces[i]);
      PlainPrint(pieces[i]);
      PlainResultChars(pieces[i], ',');
    }
  }

  lemma {:induction false} ScanClean(s: string, st: State, n: nat)
    requires |s| + |st.setb| <= n && Clean(st)
    ensures Clean(Scan(s, st, n))
    decreases |s|
  {
    if s == "" {
    } else {
      var r := s[0];
      if r == ':' && !st.isSet {
        ScanClean(s[1..], st.(typePath := st.typePath + [st.sb], sb := ""), n);
      } else if r == '[' {
        var st' := if st.sb != "" then st.(isSet := true, typePath := st.typePath + [st.sb], sb := "")
                   else st.(isSet := true);
        ScanClean(s[1..], st', n);
      } else if r == ']' {
        MembersClean(st.setb, n);
        var st' := st.(isSet := false, sets := st.sets + ParseAll(Split(st.setb, ','), n), setb := "");
        ScanClean(s[1..], st', n);
      } else if st.isSet {
        ScanClean(s[1..], st.(setb := st.setb + [r]), n);
      } else {
        ScanClean(s[1..], st.(sb := st.sb + [r]), n);
      }
    }
  }

  /** Whatever is parsed, the print is bracket-free or has the form types[members]. */
  lemma PrintShape(s: string)
    ensures Plain(Print(ParseEntity(s)))
         || exists t, m :: Plain(t) && Plain(m) && Print(ParseEntity(s)) == SetText(t, m)
  {
    if s != "" {
      ScanClean(s, START, |s|);
      var st := Scan(s, START, |s|);
      JoinChars(st.typePath, ':', '[');
      JoinChars(st.typePath, ':', ']');
      var t := Join(st.typePath, ':');
      match Finish(st)
      case InSet(es) =>
        SetShape(es);
        assert Print(ParseEntity(s)) == SetText("", Join(PrintAll(es), ','));
      case IsIn(_, es) =>
        SetShape(es);
        assert Print(ParseEntity(s)) == SetText(t, Join(PrintAll(es), ','));
      case Is(_) =>
      case Equal(_, _) =>
      case AnyUser => assert Plain("any");
      case AnyAuthenticated => assert Plain("anyAuthenticated");
    }
  }

  lemma SetShape(es: seq<Entity>)
    requires forall i :: 0 <= i < |es| ==> WellFormedMember(es[i])
    ensures Plain(Join(PrintAll(es), ','))
  {
    forall i | 0 <= i < |es| ensures Plain(Print(es[i])) {
      SimpleParsePrint(es[i]);
    }
    JoinChars(PrintAll(es), ',', '[');
    JoinChars(PrintAll(es), ',', ']');
  }

  /** The texts that survive: bracket-free ones without an any-like last piece (the keywords
      themselves apart), and types[members] with such members and types not ending in a colon. */
  ghost predicate Survives(s: string) {
    || (Plain(s) && PlainSurvives(s))
    || exists t, m :: Plain(t) && Plain(m) && s == SetText(t, m) && !EndsWithColon(t) && MembersSurvive(m)
  }

  /** Main result, for every text: printing the parsed entity gives the text back exactly when it
      is one of these. */
  lemma PrintParseExact(s: string)
    ensures Print(ParseEntity(s)) == s <==> Survives(s)
  {
    if Plain(s) {
      PlainPrint(s);
      PlainResultFixed(s);
      assert forall t, m :: '[' in SetText(t, m);
    } else if Print(ParseEntity(s)) == s {
      PrintShape(s);
      var t, m :| Plain(t) && Plain(m) && s == SetText(t, m);
      SetRoundTrip(t, m);
    } else if Survives(s) {
      var t, m :| Plain(t) && Plain(m) && s == SetText(t, m) && !EndsWithColon(t) && MembersSurvive(m);
      SetRoundTrip(t, m);
    }
  }

  // ----- every entity

  /** Main result, the other way round: parsing the print of a well-formed entity returns it. */
  lemma ParsePrint(e: Entity)
    requires WellFormed(e)
    ensures ParseEntity(Print(e)) == e
  {
    match e
    case InSet(ms) =>
      MembersParsePrint(ms);
      TypesPrint("");
      ParseSet("", Join(PrintAll(ms), ','));
      assert Print(e) == SetText("", Join(PrintAll(ms), ','));
    case IsIn(types, ms) =>
      MembersParsePrint(ms);
      NamesJoin(types);
      ParseSet(Join(types, ':'), Join(PrintAll(ms), ','));
    case _ => SimpleParsePrint(e);
  }

  /** Types that end in an empty name lose it. */
  lemma TrailingTypeLost(types: seq<string>)
    requires types != [] && Names(types)
    ensures TypePath(Join(types, ':')) == types <==> Last(types) != ""
  {
    NamesJoin(types);
  }

  /** Main result, the other way round, for every entity: the print parses back to it exactly when
      it is well formed. */
  lemma ParsePrintExact(e: Entity)
    ensures ParseEntity(Print(e)) == e <==> WellFormed(e)
  {
    if WellFormed(e) {
      ParsePrint(e);
    } else if ParseEntity(Print(e)) == e && Print(e) != "" {
      var s := Print(e);
      ScanClean(s, START, |s|);
      var st := Scan(s, START, |s|);
      match e
      case IsIn(types, ms) =>
        assert Names(types) && types != [] && ms != [] && forall i :: 0 <= i < |ms| ==> WellFormedMember(ms[i]);
        TrailingTypeLost(types);
        NamesJoin(types);
        MembersParsePrint(ms);
        ParseSet(Join(types, ':'), Join(PrintAll(ms), ','));
      case InSet(ms) =>
      case Is(_) => EmptyTypes();
      case _ =>
    }
  }

  lemma EmptyTypes()
    ensures ParseEntity(Print(Is([]))) == Is([""])
  {
    assert Print(Is([])) == ":";
    assert Split(":", ':') == [""] + Split("", ':');
    ParsePlain(":");
  }
}
