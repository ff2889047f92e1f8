/** Cedar operands and the words they become. Where the names are ordinary ones the word can be read
    back: distinct operands have distinct words, and no member of a set literal is lost. */
module CedarWord {
  import opened Idql
  import opened Strings

  /** `VText` is a value String() writes without quotes (a number or a truth value). An entity's type
      is given by its segments. */
  datatype Value = VString(text: string) | VEntity(path: seq<string>, id: string) | VText(text: string)

  /** `OOther` stands for what the comparator refuses (if-then-else, arithmetic, calls). */
  datatype Operand =
    | OValue(value: Value)
    | OVar(name: string)
    | OSet(items: seq<Operand>)
    | OAccess(left: Operand, attr: string)
    | OOther

  // ----- text of a value

  /** strconv.Quote, as far as quotes and backslashes go. */
  function Escape(text: string): string {
    if text == "" then ""
    else (if text[0] == '"' || text[0] == '\\' then ['\\', text[0]] else [text[0]]) + Escape(text[1..])
  }

  function Quote(text: string): string {
    "\"" + (Escape(text) + "\"")
  }

  /** What the comparator writes. */
  function ValueText(v: Value): string {
    match v
    case VString(s) => Quote(s)
    case VEntity(path, id) => Join(path, ':') + (":\"" + (id + "\""))
    case VText(t) => t
  }

  function Colons(path: seq<string>): string {
    if path == [] then "" else Colons(path[..|path| - 1]) + path[|path| - 1] + "::"
  }

  /** String(). */
  function RawText(v: Value): string {
    match v
    case VString(s) => s
    case VEntity(path, id) => Colons(path) + Quote(id)
    case VText(t) => t
  }

  // ----- text of an operand

  function JoinComma(ts: seq<string>): string {
    if ts == [] then "" else if |ts| == 1 then ts[0] else JoinComma(ts[..|ts| - 1]) + ", " + ts[|ts| - 1]
  }

  /** mapCedarRelationComparator; None is its error. */
  function Comparator(o: Operand): Option<string> {
    match o
    case OValue(v) => Some(ValueText(v))
    case OVar(name) => Some(name)
    case OSet(items) =>
      (match Comparators(items)
       case None => None
       case Some(ts) => Some("[" + (JoinComma(ts) + "]")))
    case OAccess(left, attr) =>
      (match Comparator(left)
       case None => None
       case Some(t) => Some(t + ("." + attr)))
    case OOther => None
  }

  function Comparators(os: seq<Operand>): (r: Option<seq<string>>)
    ensures r.Some? ==> |r.value| == |os|
  {
    if os == [] then Some([])
    else match (Comparators(os[..|os| - 1]), Comparator(os[|os| - 1]))
      case (Some(ts), Some(t)) => Some(ts + [t])
      case _ => None
  }

  predicate Expressed(o: Operand) {
    Comparator(o).Some?
  }

  /** The text that is left when the error is thrown away. */
  function Shown(o: Operand): string {
    match Comparator(o)
    case Some(t) => t
    case None => ""
  }

  /** An operand is expressed exactly when nothing refused stands in it. */
  predicate Plain(o: Operand) {
    match o
    case OValue(_) => true
    case OVar(_) => true
    case OSet(items) => forall i :: 0 <= i < |items| ==> Plain(items[i])
    case OAccess(left, _) => Plain(left)
    case OOther => false
  }

  lemma {:induction false} ComparatorsExact(os: seq<Operand>)
    ensures Comparators(os).Some? <==> forall i :: 0 <= i < |os| ==> Plain(os[i])
    decreases os
  {
    if os == [] {
    } else {
      var n := |os| - 1;
      ComparatorsExact(os[..n]);
      ComparatorExact(os[n]);
      assert forall i :: 0 <= i < n ==> os[..n][i] == os[i];
    }
  }

  lemma {:induction false} ComparatorExact(o: Operand)
    ensures Expressed(o) <==> Plain(o)
    decreases o
  {
    match o
    case OSet(items) => ComparatorsExact(items);
    case OAccess(left, _) => ComparatorExact(left);
    case _ =>
  }

  lemma {:induction false} ComparatorsPrefix(os: seq<Operand>, k: nat)
    requires k <= |os| && Comparators(os).Some?
    ensures Comparators(os[..k]).Some?
  {
    if k == |os| {
      assert os[..k] == os;
    } else {
      ComparatorsPrefix(os[..|os| - 1], k);
      assert os[..|os| - 1][..k] == os[..k];
    }
  }

  /** The comparator's loop over a set literal. */
  method MapSet(items: seq<Operand>) returns (r: Option<string>)
    ensures r == Comparator(OSet(items))
  {
    var vals: seq<string> := [];
    for k := 0 to |items|
      invariant Comparators(items[..k]) == Some(vals)
    {
      assert items[..k + 1][..k] == items[..k];
      var value := Comparator(items[k]);
      if value == None {
        if Comparators(items).Some? {
          ComparatorsPrefix(items, k + 1);
        }
        return None;
      }
      vals := vals + [value.value];
    }
    assert items[..|items|] == items;
    return Some("[" + (JoinComma(vals) + "]"));
  }

  // ----- ordinary names

  const STOPS := {'.', ',', '[', ']', '"', ':', ' ', '\\'}

  predicate IsDigit(c: char) {
    '0' <= c <= '9' || c == '-'
  }

  predicate Name(s: string) {
    s != "" && forall i :: 0 <= i < |s| ==> s[i] !in STOPS
  }

  predicate Names(ss: seq<string>) {
    ss != [] && forall i :: 0 <= i < |ss| ==> Name(ss[i])
  }

  /** Digits, and what may stand among them. */
  predicate Number(s: string) {
    s != "" && IsDigit(s[0]) && forall i :: 0 <= i < |s| ==> s[i] == '.' || s[i] !in STOPS
  }

  predicate IsTruth(s: string) {
    s == "true" || s == "false"
  }

  predicate CleanValue(v: Value) {
    match v
    case VString(_) => true
    case VEntity(path, id) => Names(path) && !IsDigit(path[0][0]) && '"' !in id
    case VText(t) => IsTruth(t) || Number(t)
  }

  /** What an attribute can be taken of. */
  predicate Chained(o: Operand) {
    o.OVar? || o.OAccess? || (o.OValue? && o.value.VEntity?)
  }

  predicate Clean(o: Operand) {
    match o
    case OValue(v) => CleanValue(v)
    case OVar(name) => Name(name) && !IsDigit(name[0]) && !IsTruth(name)
    case OSet(items) => forall i :: 0 <= i < |items| ==> Clean(items[i])
    case OAccess(left, attr) => Clean(left) && Chained(left) && Name(attr)
    case OOther => false
  }

  lemma {:induction false} CleanPlain(o: Operand)
    requires Clean(o)
    ensures Plain(o)
  {
    match o
    case OSet(items) =>
      forall i | 0 <= i < |items| ensures Plain(items[i]) {
        CleanPlain(items[i]);
      }
    case OAccess(left, _) => CleanPlain(left);
    case _ =>
  }

  lemma CleanExpressed(o: Operand)
    requires Clean(o)
    ensures Expressed(o)
  {
    CleanPlain(o);
    ComparatorExact(o);
  }

  // ----- a reader for the words

  /** The characters up to the next stop. */
  function TakeName(t: string): (r: (string, string))
    ensures |r.1| <= |t| && (r.0 != "" ==> |r.1| < |t|)
  {
    if t == "" || t[0] in STOPS then ("", t)
    else
      var (n, k) := TakeName(t[1..]);
      ([t[0]] + n, k)
  }

  function TakeNumber(t: string): (r: (string, string))
    ensures |r.1| <= |t| && (t != "" && IsDigit(t[0]) ==> |r.1| < |t|)
  {
    if t == "" || (t[0] in STOPS && t[0] != '.') then ("", t)
    else
      var (n, k) := TakeNumber(t[1..]);
      ([t[0]] + n, k)
  }

  /** A quoted text, its opening quote already read. */
  function ReadQuoted(t: string): (r: Option<(string, string)>)
    ensures r.Some? ==> |r.value.1| < |t|
  {
    if t == "" then None
    else if t[0] == '"' then Some(("", t[1..]))
    else if t[0] == '\\' && |t| > 1 then
      (match ReadQuoted(t[2..])
       case None => None
       case Some((s, k)) => Some(([t[1]] + s, k)))
    else match ReadQuoted(t[1..])
      case None => None
      case Some((s, k)) => Some(([t[0]] + s, k))
  }

  /** An entity's identifier, which is written as it is. */
  function ReadId(t: string): (r: Option<(string, string)>)
    ensures r.Some? ==> |r.value.1| < |t|
  {
    if t == "" then None
    else if t[0] == '"' then Some(("", t[1..]))
    else match ReadId(t[1..])
      case None => None
      case Some((s, k)) => Some(([t[0]] + s, k))
  }

  /** What follows the first segment of an entity: further segments, and the identifier. */
  function ReadEntity(t: string): (r: Option<(seq<string>, string, string)>)
    ensures r.Some? ==> |r.value.2| < |t|
    decreases |t|
  {
    if |t| < 2 || t[0] != ':' then None
    else if t[1] == '"' then
      match ReadId(t[2..])
      case None => None
      case Some((id, k)) => Some(([], id, k))
    else
      var (n, k) := TakeName(t[1..]);
      match ReadEntity(k)
      case None => None
      case Some((path, id, k')) => Some(([n] + path, id, k'))
  }

  function ReadAttrs(o: Operand, t: string): (r: (Operand, string))
    ensures |r.1| <= |t|
    decreases |t|
  {
    if t == "" || t[0] != '.' || TakeName(t[1..]).0 == "" then (o, t)
    else ReadAttrs(OAccess(o, TakeName(t[1..]).0), TakeName(t[1..]).1)
  }

  /** A name, a truth value, or an entity, then its attributes. */
  function ReadNamed(t: string): (r: Option<(Operand, string)>)
    ensures r.Some? ==> |r.value.1| < |t|
  {
    var (n, k) := TakeName(t);
    if n == "" then None
    else if k != "" && k[0] == ':' then
      match ReadEntity(k)
      case None => None
      case Some((path, id, k')) => Some(ReadAttrs(OValue(VEntity([n] + path, id)), k'))
    else if IsTruth(n) then Some((OValue(VText(n)), k))
    else Some(ReadAttrs(OVar(n), k))
  }

  function ReadOperand(t: string): (r: Option<(Operand, string)>)
    ensures r.Some? ==> |r.value.1| < |t|
    decreases |t|, 0
  {
    if t == "" then None
    else if t[0] == '[' then
      match ReadItems(t[1..])
      case None => None
      case Some((os, k)) => Some((OSet(os), k))
    else if t[0] == '"' then
      match ReadQuoted(t[1..])
      case None => None
      case Some((s, k)) => Some((OValue(VString(s)), k))
    else if IsDigit(t[0]) then Some((OValue(VText(TakeNumber(t).0)), TakeNumber(t).1))
    else ReadNamed(t)
  }

  function ReadItems(t: string): (r: Option<(seq<Operand>, string)>)
    ensures r.Some? ==> |r.value.1| < |t|
    decreases |t|, 1
  {
    if t != "" && t[0] == ']' then Some(([], t[1..]))
    else match ReadOperand(t)
      case None => None
      case Some((o, k)) =>
        if k != "" && k[0] == ']' then Some(([o], k[1..]))
        else if |k| < 2 || k[..2] != ", " then None
        else match ReadItems(k[2..])
          case None => None
          case Some((os, k')) => Some(([o] + os, k'))
  }

  /** Reads a whole word. */
  function ReadWhole(t: string): Option<Operand> {
    match ReadOperand(t)
    case Some((o, k)) => if k == "" then Some(o) else None
    case None => None
  }

  // ----- the reader undoes the comparator

  lemma {:induction false} NameTaken(s: string, k: string)
    requires (forall i :: 0 <= i < |s| ==> s[i] !in STOPS) && (k == "" || k[0] in STOPS)
    ensures TakeName(s + k) == (s, k)
  {
    if s == "" {
      assert s + k == k;
    } else {
      assert (s + k)[1..] == s[1..] + k;
      NameTaken(s[1..], k);
      assert [s[0]] + s[1..] == s;
    }
  }

  lemma {:induction false} NumberTaken(s: string, k: string)
    requires (forall i :: 0 <= i < |s| ==> s[i] == '.' || s[i] !in STOPS)
    requires k == "" || (k[0] in STOPS && k[0] != '.')
    ensures TakeNumber(s + k) == (s, k)
  {
    if s == "" {
      assert s + k == k;
    } else {
      assert (s + k)[1..] == s[1..] + k;
      NumberTaken(s[1..], k);
      assert [s[0]] + s[1..] == s;
    }
  }

  lemma {:induction false} QuotedRead(s: string, k: string)
    ensures ReadQuoted(Escape(s) + ("\"" + k)) == Some((s, k))
  {
    var t := Escape(s) + ("\"" + k);
    if s == "" {
      assert t == "\"" + k && t[1..] == k;
    } else {
      var rest := Escape(s[1..]) + ("\"" + k);
      QuotedRead(s[1..], k);
      if s[0] == '"' || s[0] == '\\' {
        assert t == ['\\', s[0]] + rest && t[2..] == rest;
      } else {
        assert t == [s[0]] + rest && t[1..] == rest;
      }
      assert [s[0]] + s[1..] == s;
    }
  }

  lemma {:induction false} IdRead(id: string, k: string)
    requires '"' !in id
    ensures ReadId(id + ("\"" + k)) == Some((id, k))
  {
    var t := id + ("\"" + k);
    if id == "" {
      assert t == "\"" + k && t[1..] == k;
    } else {
      assert t[0] == id[0] && t[1..] == id[1..] + ("\"" + k);
      IdRead(id[1..], k);
      assert [id[0]] + id[1..] == id;
    }
  }

  /** The part of an entity's text behind its first segment. */
  function Behind(path: seq<string>, id: string): string {
    if path == [] then ":\"" + (id + "\"") else ":" + (path[0] + Behind(path[1..], id))
  }

  lemma {:induction false} EntityText(path: seq<string>, id: string)
    requires path != []
    ensures ValueText(VEntity(path, id)) == path[0] + Behind(path[1..], id)
  {
    if |path| == 1 {
      assert path[1..] == [];
    } else {
      var tl := path[1..];
      EntityText(tl, id);
      assert Join(path, ':') == path[0] + [':'] + Join(tl, ':');
      assert path[0] + [':'] + Join(tl, ':') + (":\"" + (id + "\""))
          == path[0] + (":" + (Join(tl, ':') + (":\"" + (id + "\""))));
    }
  }

  lemma {:induction false} EntityRead(path: seq<string>, id: string, k: string)
    requires (forall i :: 0 <= i < |path| ==> Name(path[i])) && '"' !in id
    ensures ReadEntity(Behind(path, id) + k) == Some((path, id, k))
  {
    var t := Behind(path, id) + k;
    if path == [] {
      assert t == ":\"" + (id + ("\"" + k)) && t[2..] == id + ("\"" + k);
      IdRead(id, k);
    } else {
      var rest := Behind(path[1..], id) + k;
      assert t == ":" + (path[0] + rest) && t[1..] == path[0] + rest;
      assert t[1] == path[0][0];
      NameTaken(path[0], rest);
      EntityRead(path[1..], id, k);
      assert [path[0]] + path[1..] == path;
    }
  }

  /** A word ends at a bracket, a comma, or the end of the text. */
  predicate Ends(k: string) {
    k == "" || k[0] == ',' || k[0] == ']'
  }

  predicate EndsOrDot(k: string) {
    Ends(k) || k[0] == '.'
  }

  lemma NamedRead(name: string, k: string)
    requires Clean(OVar(name)) && EndsOrDot(k)
    ensures ReadOperand(name + k) == Some(ReadAttrs(OVar(name), k))
  {
    assert (name + k)[0] == name[0];
    NameTaken(name, k);
  }

  lemma EntityNamedRead(path: seq<string>, id: string, k: string)
    requires CleanValue(VEntity(path, id)) && EndsOrDot(k)
    ensures ReadOperand(ValueText(VEntity(path, id)) + k) == Some(ReadAttrs(OValue(VEntity(path, id)), k))
  {
    var rest := Behind(path[1..], id) + k;
    EntityText(path, id);
    assert ValueText(VEntity(path, id)) + k == path[0] + rest;
    assert (path[0] + rest)[0] == path[0][0];
    NameTaken(path[0], rest);
    EntityRead(path[1..], id, k);
    assert [path[0]] + path[1..] == path;
  }

  lemma AttrRead(o: Operand, attr: string, k: string)
    requires Name(attr) && EndsOrDot(k)
    ensures ReadAttrs(o, "." + (attr + k)) == ReadAttrs(OAccess(o, attr), k)
  {
    assert ("." + (attr + k))[1..] == attr + k;
    NameTaken(attr, k);
  }

  /** A name and what hangs on it is read, and reading goes on with the attributes that follow. */
  lemma {:induction false} ChainRead(o: Operand, k: string)
    requires Clean(o) && Chained(o) && EndsOrDot(k)
    ensures ReadOperand(Shown(o) + k) == Some(ReadAttrs(o, k))
    decreases o
  {
    match o
    case OVar(name) => NamedRead(name, k);
    case OValue(v) => EntityNamedRead(v.path, v.id, k);
    case OAccess(left, attr) =>
      CleanExpressed(left);
      ChainRead(left, "." + (attr + k));
      AttrRead(left, attr, k);
      assert Shown(o) + k == Shown(left) + ("." + (attr + k));
  }

  lemma TextRead(t: string, k: string)
    requires CleanValue(VText(t)) && Ends(k)
    ensures ReadOperand(t + k) == Some((OValue(VText(t)), k))
  {
    assert (t + k)[0] == t[0];
    if IsTruth(t) {
      NameTaken(t, k);
    } else {
      NumberTaken(t, k);
    }
  }

  lemma SetRead(os: seq<Operand>, j: string, k: string)
    requires ReadItems(j + ("]" + k)) == Some((os, k))
    ensures ReadOperand("[" + (j + "]") + k) == Some((OSet(os), k))
  {
    var t := "[" + (j + "]") + k;
    assert t[0] == '[' && t[1..] == j + ("]" + k);
  }

  lemma StringRead(s: string, k: string)
    ensures ReadOperand(Shown(OValue(VString(s))) + k) == Some((OValue(VString(s)), k))
  {
    var t := Shown(OValue(VString(s))) + k;
    assert t[0] == '"' && t[1..] == Escape(s) + ("\"" + k);
    QuotedRead(s, k);
  }

  /** Main result: what the comparator writes for an operand of ordinary names is read back as that
      operand, whatever ends the word. */
  lemma {:induction false} OperandRead(o: Operand, k: string)
    requires Clean(o) && Ends(k)
    ensures ReadOperand(Shown(o) + k) == Some((o, k))
    decreases o
  {
    if Chained(o) {
      ChainRead(o, k);
    } else if o.OSet? {
      CleanExpressed(o);
      ItemsRead(o.items, k);
      SetRead(o.items, JoinComma(Comparators(o.items).value), k);
    } else if o.value.VString? {
      StringRead(o.value.text, k);
    } else {
      TextRead(o.value.text, k);
    }
  }

  // ----- values in their raw text

  /** Types up to the quoted identifier. */
  function ReadRaw(t: string): Option<(seq<string>, string)>
    decreases |t|
  {
    if t != "" && t[0] == '"' then
      match ReadQuoted(t[1..])
      case None => None
      case Some((id, k)) => if k == "" then Some(([], id)) else None
    else
      var (n, k) := TakeName(t);
      if |k| < 2 || k[..2] != "::" then None
      else match ReadRaw(k[2..])
        case None => None
        case Some((path, id)) => Some(([n] + path, id))
  }

  lemma {:induction false} ColonsFirst(n: string, path: seq<string>)
    ensures Colons([n] + path) == n + ("::" + Colons(path))
  {
    if path == [] {
      assert [n] + path == [n] && [n][..0] == [];
    } else {
      var init, last := path[..|path| - 1], path[|path| - 1];
      assert ([n] + path)[..|path|] == [n] + init && ([n] + path)[|path|] == last;
      ColonsFirst(n, init);
      ColonsText(n, Colons(init), last);
    }
  }

  lemma ColonsText(n: string, c: string, last: string)
    ensures n + ("::" + c) + last + "::" == n + ("::" + (c + last + "::"))
  {}

  /** The raw text of an entity tells its types and its identifier. */
  lemma {:induction false} RawRead(path: seq<string>, id: string)
    requires forall i :: 0 <= i < |path| ==> Name(path[i])
    ensures ReadRaw(RawText(VEntity(path, id))) == Some((path, id))
  {
    if path == [] {
      RawQuoted(id);
    } else {
      var rest := Colons(path[1..]) + Quote(id);
      ColonsFirst(path[0], path[1..]);
      assert [path[0]] + path[1..] == path;
      assert Colons(path) + Quote(id) == path[0] + ("::" + rest);
      RawRead(path[1..], id);
      RawStep(path[0], rest, path[1..], id);
    }
  }

  lemma RawQuoted(id: string)
    ensures ReadRaw(Colons([]) + Quote(id)) == Some(([], id))
  {
    var t := Colons([]) + Quote(id);
    assert t == Quote(id) && t[1..] == Escape(id) + ("\"" + "");
    QuotedRead(id, "");
  }

  lemma RawStep(n: string, rest: string, path: seq<string>, id: string)
    requires Name(n) && ReadRaw(rest) == Some((path, id))
    ensures ReadRaw(n + ("::" + rest)) == Some(([n] + path, id))
  {
    var k := "::" + rest;
    assert (n + k)[0] == n[0];
    NameTaken(n, k);
    assert k[..2] == "::" && k[2..] == rest;
  }

  lemma {:induction false} JoinCommaFirst(ts: seq<string>)
    requires |ts| > 1
    ensures JoinComma(ts) == ts[0] + (", " + JoinComma(ts[1..]))
  {
    var n := |ts| - 1;
    if n == 1 {
      assert ts[..1] == [ts[0]] && ts[1..] == [ts[1]];
    } else {
      JoinCommaFirst(ts[..n]);
      assert ts[..n][1..] == ts[1..][..n - 1];
    }
  }

  lemma {:induction false} ComparatorsFirst(os: seq<Operand>)
    requires os != [] && Comparators(os).Some?
    ensures Comparator(os[0]).Some? && Comparators(os[1..]).Some?
    ensures Comparators(os).value == [Comparator(os[0]).value] + Comparators(os[1..]).value
  {
    var n := |os| - 1;
    if n == 0 {
      assert os[1..] == [] && os[..0] == [];
    } else {
      ComparatorsFirst(os[..n]);
      assert os[..n][1..] == os[1..][..n - 1];
    }
  }

  lemma LastItem(t: string, o: Operand, k: string)
    requires t != "" && t[0] != ']' && ReadOperand(t) == Some((o, "]" + k))
    ensures ReadItems(t) == Some(([o], k))
  {
    assert ("]" + k)[1..] == k;
  }

  lemma MoreItems(t: string, o: Operand, os: seq<Operand>, rest: string, k: string)
    requires t != "" && t[0] != ']' && ReadOperand(t) == Some((o, ", " + rest))
    requires ReadItems(rest) == Some((os, k))
    ensures ReadItems(t) == Some(([o] + os, k))
  {
    assert (", " + rest)[..2] == ", " && (", " + rest)[2..] == rest;
  }

  /** The text of the items from the first one on. */
  function ItemsText(os: seq<Operand>, k: string): string
    requires Comparators(os).Some?
  {
    JoinComma(Comparators(os).value) + ("]" + k)
  }

  lemma ItemsFirst(os: seq<Operand>, k: string)
    requires os != [] && Comparators(os).Some?
    ensures Comparators(os[1..]).Some?
    ensures ItemsText(os, k) == Shown(os[0]) + (if |os| == 1 then "]" + k else ", " + ItemsText(os[1..], k))
  {
    ComparatorsFirst(os);
    ItemText(Shown(os[0]), Comparators(os[1..]).value, k);
  }

  lemma ItemText(t: string, ts: seq<string>, k: string)
    ensures JoinComma([t] + ts) + ("]" + k) == t + (if ts == [] then "]" + k else ", " + (JoinComma(ts) + ("]" + k)))
  {
    if ts == [] {
      assert [t] + ts == [t];
    } else {
      JoinCommaFirst([t] + ts);
      assert ([t] + ts)[1..] == ts;
    }
  }

  lemma {:induction false} ItemsRead(os: seq<Operand>, k: string)
    requires Comparators(os).Some? && forall i :: 0 <= i < |os| ==> Clean(os[i])
    ensures ReadItems(ItemsText(os, k)) == Some((os, k))
    decreases os
  {
    var t := ItemsText(os, k);
    if os == [] {
      assert t == "]" + k && t[1..] == k;
    } else {
      ItemsFirst(os, k);
      ShownStarts(os[0]);
      assert t[0] == Shown(os[0])[0];
      if |os| == 1 {
        OperandRead(os[0], "]" + k);
        LastItem(t, os[0], k);
        assert [os[0]] == os;
      } else {
        OperandRead(os[0], ", " + ItemsText(os[1..], k));
        ItemsRead(os[1..], k);
        MoreItems(t, os[0], os[1..], ItemsText(os[1..], k), k);
        assert [os[0]] + os[1..] == os;
      }
    }
  }

  /** No word is empty or begins with a closing bracket. */
  lemma {:induction false} ShownStarts(o: Operand)
    requires Clean(o)
    ensures Shown(o) != "" && Shown(o)[0] != ']'
  {
    match o
    case OValue(v) =>
      if v.VEntity? {
        EntityText(v.path, v.id);
      }
    case OAccess(left, _) =>
      CleanExpressed(left);
      ShownStarts(left);
    case OSet(_) => CleanExpressed(o);
    case OVar(_) =>
  }

  /** Main result: distinct operands of ordinary names have distinct words. */
  lemma WordsInjective(o: Operand, p: Operand)
    requires Clean(o) && Clean(p)
    ensures ReadWhole(Shown(o)) == Some(o)
    ensures Shown(o) == Shown(p) <==> o == p
  {
    OperandRead(o, "");
    OperandRead(p, "");
    assert Shown(o) + "" == Shown(o) && Shown(p) + "" == Shown(p);
  }

  /** A dot in a name, on the other hand, makes one word of two operands. */
  lemma DottedNamesMuddle(x: Operand, a: string, b: string)
    requires Expressed(x)
    ensures Shown(OAccess(x, a + ("." + b))) == Shown(OAccess(OAccess(x, a), b))
    ensures OAccess(x, a + ("." + b)) != OAccess(OAccess(x, a), b)
  {
    var t := Comparator(x).value;
    assert Comparator(OAccess(x, a)) == Some(t + ("." + a));
    assert t + ("." + (a + ("." + b))) == t + ("." + a) + ("." + b);
    assert |a + ("." + b)| > |b|;
  }
}
