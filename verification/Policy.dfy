/** Policies and how two of them are compared. */
module Policy {
  import opened Idql
  import opened Strings
  import ConditionEquals

  datatype ScopeInfo = ScopeInfo(filter: Option<string>, attributes: seq<string>)

  /** `actions` is None for a nil list. */
  datatype PolicyInfo = PolicyInfo(
    id: Option<string>, subjects: seq<string>, actions: Option<seq<string>>, obj: string,
    condition: Option<ConditionEquals.ConditionInfo>, scope: Option<ScopeInfo>)

  /** The etag, taken as injective on what is hashed: the scope enters only by being there. */
  datatype Etag = Etag(
    subjects: seq<string>, actions: Option<seq<string>>, obj: string,
    condition: Option<ConditionEquals.ConditionInfo>, scoped: bool)

  function CalculateEtag(p: PolicyInfo): Etag {
    Etag(p.subjects, p.actions, p.obj, p.condition, p.scope.Some?)
  }

  /** What the etag tells apart: everything but the identifier and what is in the scope. */
  lemma EtagsExact(p: PolicyInfo, q: PolicyInfo)
    ensures CalculateEtag(p) == CalculateEtag(q) <==>
      && p.subjects == q.subjects && p.actions == q.actions && p.obj == q.obj && p.condition == q.condition
      && (p.scope == None <==> q.scope == None)
  {}

  predicate EqualFold(a: string, b: string) {
    ToLower(a) == ToLower(b)
  }

  predicate HasFold(t: seq<string>, m: string) {
    exists j :: 0 <= j < |t| && EqualFold(m, t[j])
  }

  /** Same length, and every member of `s` is found in `t`. */
  predicate MembersMatch(s: seq<string>, t: seq<string>) {
    |s| == |t| && forall i :: 0 <= i < |s| ==> HasFold(t, s[i])
  }

  /** The nested loops of SubjectInfo.Equals and ActionsEqual. */
  method MembersEqual(s: seq<string>, t: seq<string>) returns (equal: bool)
    ensures equal <==> MembersMatch(s, t)
  {
    if |s| != |t| {
      return false;
    }
    for i := 0 to |s|
      invariant forall k :: 0 <= k < i ==> HasFold(t, s[k])
    {
      var isMatch := false;
      var j := 0;
      while j < |t| && !isMatch
        invariant j <= |t|
        invariant isMatch ==> HasFold(t, s[i])
        invariant !isMatch ==> forall k :: 0 <= k < j ==> !EqualFold(s[i], t[k])
        decreases |t| - j, !isMatch
      {
        if EqualFold(s[i], t[j]) {
          isMatch := true;
        } else {
          j := j + 1;
        }
      }
      if !isMatch {
        return false;
      }
    }
    return true;
  }

  predicate ActionsEqual(a: Option<seq<string>>, b: Option<seq<string>>) {
    b.Some? && MembersMatch(if a.Some? then a.value else [], b.value)
  }

  // ----- scopes

  datatype ScopeType = Sql | IdqlFilter | Unassigned

  function TypeOf(s: ScopeInfo): ScopeType {
    if s.filter == None || s.filter.value == "" then Unassigned
    else
      var prefix := ToLower(Split(s.filter.value, ':')[0]);
      if prefix == "sql" then Sql else if prefix == "idql" then IdqlFilter else Unassigned
  }

  /** The filter begins with the word, in any letter case, up to a colon or to its end. */
  predicate Begins(filter: string, word: string) {
    && |word| <= |filter| && ToLower(filter[..|word|]) == word
    && (|filter| == |word| || filter[|word|] == ':')
  }

  /** A scope's type is told by the word its filter begins with. */
  lemma TypeExact(s: ScopeInfo)
    ensures TypeOf(s) == Sql <==> s.filter.Some? && Begins(s.filter.value, "sql")
    ensures TypeOf(s) == IdqlFilter <==> s.filter.Some? && Begins(s.filter.value, "idql")
  {
    if s.filter.Some? {
      FirstPiece(s.filter.value, "sql");
      FirstPiece(s.filter.value, "idql");
      assert ToLower("") == "";
    }
  }

  lemma FirstPiece(f: string, word: string)
    requires ToLower(word) == word && ':' !in word
    ensures ToLower(Split(f, ':')[0]) == word <==> Begins(f, word)
  {
    var p := Split(f, ':')[0];
    SplitFirst(f);
    assert |ToLower(p)| == |p|;
    if Begins(f, word) {
      forall i | 0 <= i < |word| ensures f[i] != ':' {
        assert ToLower(f[..|word|])[i] == LowerChar(f[i]) == word[i];
      }
    }
  }

  lemma {:induction false} SplitFirst(f: string)
    ensures var p := Split(f, ':')[0];
      p <= f && ':' !in p && (|p| == |f| || f[|p|] == ':')
  {
    if f == "" || f[0] == ':' {
    } else {
      SplitFirst(f[1..]);
    }
  }

  /** ScopeInfo.Equals; None is the dereference of a nil filter. */
  method ScopesEqual(s: ScopeInfo, t: ScopeInfo) returns (r: Option<bool>)
    ensures r == ScopeEquals(s, t)
  {
    if TypeOf(s) != TypeOf(t) {
      return Some(false);
    }
    if s.filter.Some? {
      if t.filter == None {
        return None;
      }
      if s.filter.value != t.filter.value {
        return Some(false);
      }
    }
    var matched := MembersEqual(s.attributes, t.attributes);
    return Some(matched);
  }

  function ScopeEquals(s: ScopeInfo, t: ScopeInfo): Option<bool> {
    if TypeOf(s) != TypeOf(t) then Some(false)
    else if s.filter.Some? && t.filter == None then None
    else Some((s.filter.Some? ==> s.filter == t.filter) && MembersMatch(s.attributes, t.attributes))
  }

  /** Exactly: a nil filter is dereferenced when the first scope has a filter of no known type and the
      second has none; the scopes are equal when the attributes match, in any order, and the filters
      are the same or the first is nil and the second of no known type. */
  lemma ScopeEqualsExact(s: ScopeInfo, t: ScopeInfo)
    ensures ScopeEquals(s, t) == None <==> s.filter.Some? && TypeOf(s) == Unassigned && t.filter == None
    ensures ScopeEquals(s, t) == Some(true) <==>
      && (s.filter == t.filter || (s.filter == None && TypeOf(t) == Unassigned))
      && |s.attributes| == |t.attributes| && FoldSet(s.attributes) <= FoldSet(t.attributes)
    ensures ScopeEquals(s, s) == Some(true)
  {
    MembersMatchExact(s.attributes, t.attributes);
    MembersMatchExact(s.attributes, s.attributes);
  }

  /** Two optional scopes. */
  function ScopesAgree(s: Option<ScopeInfo>, t: Option<ScopeInfo>): Option<bool> {
    match (s, t)
    case (Some(x), Some(y)) => ScopeEquals(x, y)
    case _ => Some(s == t)
  }

  // ----- policies

  /** All that Equals looks at before the scope. */
  predicate EqualsButScope(p: PolicyInfo, q: PolicyInfo) {
    && MembersMatch(p.subjects, q.subjects) && ActionsEqual(p.actions, q.actions) && EqualFold(p.obj, q.obj)
    && (if p.condition.Some? then ConditionEquals.Equals(p.condition.value, q.condition) else q.condition.None?)
  }

  /** PolicyInfo.Equals; None is a panic. */
  function TryEquals(p: PolicyInfo, q: PolicyInfo): Option<bool> {
    if CalculateEtag(p) == CalculateEtag(q) then Some(true)
    else if !EqualsButScope(p, q) then Some(false)
    else ScopesAgree(p.scope, q.scope)
  }

  predicate Equals(p: PolicyInfo, q: PolicyInfo) {
    TryEquals(p, q) == Some(true)
  }

  datatype Difference = EQUAL | SUBJECT | ACTION | OBJECT | CONDITION

  /** Compare, where Equals does not panic, with its condition test as written: a condition that only
      the second policy has is never reported. */
  function Compare(p: PolicyInfo, q: PolicyInfo): seq<Difference> {
    if Equals(p, q) then [EQUAL]
    else
      var difs :=
        (if MembersMatch(p.subjects, q.subjects) then [] else [SUBJECT])
        + (if ActionsEqual(p.actions, q.actions) then [] else [ACTION])
        + (if EqualFold(p.obj, q.obj) then [] else [OBJECT])
        + (if (p.condition.Some? && q.condition.None?) || (p.condition.None? && p.condition.Some?) then [CONDITION]
           else if p.condition.Some? && !ConditionEquals.Equals(p.condition.value, q.condition) then [CONDITION]
           else []);
      if difs == [] then [EQUAL] else difs
  }

  predicate CompareEqual(p: PolicyInfo, q: PolicyInfo) {
    EQUAL in Compare(p, q)
  }

  /** When Compare reports EQUAL, and nothing else with it. */
  lemma CompareEqualExact(p: PolicyInfo, q: PolicyInfo)
    ensures CompareEqual(p, q) <==>
      || CalculateEtag(p) == CalculateEtag(q)
      || (&& MembersMatch(p.subjects, q.subjects) && ActionsEqual(p.actions, q.actions)
          && EqualFold(p.obj, q.obj)
          && (p.condition.Some? ==> ConditionEquals.Equals(p.condition.value, q.condition)))
    ensures CompareEqual(p, q) ==> Compare(p, q) == [EQUAL]
    ensures CompareEqual(p, p)
  {}

  /** The place of a label in a report. */
  function Place(d: Difference): nat {
    match d
    case EQUAL => 0
    case SUBJECT => 1
    case ACTION => 2
    case OBJECT => 3
    case CONDITION => 4
  }

  function ActionList(p: PolicyInfo): seq<string> {
    if p.actions.Some? then p.actions.value else []
  }

  lemma LabelsOrdered(p: PolicyInfo, q: PolicyInfo)
    ensures forall i, j :: 0 <= i < j < |Compare(p, q)| ==> Place(Compare(p, q)[i]) < Place(Compare(p, q)[j])
  {}

  /** Which labels are reported where EQUAL is not, each once: the subjects differ as
      sets letter case aside or in number, likewise the actions, or the second list is nil; the
      objects differ in more than letter case; the first has a condition which the second has not or
      which is not equal to the second's. */
  lemma LabelsExact(p: PolicyInfo, q: PolicyInfo)
    requires !CompareEqual(p, q)
    ensures SUBJECT in Compare(p, q) <==>
      |p.subjects| != |q.subjects| || !(FoldSet(p.subjects) <= FoldSet(q.subjects))
    ensures ACTION in Compare(p, q) <==>
      || q.actions == None || |ActionList(p)| != |ActionList(q)|
      || !(FoldSet(ActionList(p)) <= FoldSet(ActionList(q)))
    ensures OBJECT in Compare(p, q) <==> ToLower(p.obj) != ToLower(q.obj)
    ensures CONDITION in Compare(p, q) <==>
      p.condition.Some? && (q.condition == None || !ConditionEquals.Equals(p.condition.value, q.condition))
  {
    MembersMatchExact(p.subjects, q.subjects);
    MembersMatchExact(ActionList(p), ActionList(q));
  }

  /** EQUAL says less than Equals: apart from equal etags it misses a scope that differs and a
      condition that only the second policy has, and nothing else. Equals panics on two policies that
      agree in all else, have different etags, and scopes of which the first has a filter of no known
      type and the second none. */
  lemma EqualAgreesExact(p: PolicyInfo, q: PolicyInfo)
    ensures Equals(p, q) <==>
      && CompareEqual(p, q)
      && (|| CalculateEtag(p) == CalculateEtag(q)
          || (&& (q.condition.Some? ==> p.condition.Some?)
              && (|| (p.scope == None && q.scope == None)
                  || (p.scope.Some? && q.scope.Some? && ScopeEquals(p.scope.value, q.scope.value) == Some(true)))))
    ensures TryEquals(p, q) == None <==>
      && CompareEqual(p, q) && CalculateEtag(p) != CalculateEtag(q) && (q.condition.Some? ==> p.condition.Some?)
      && p.scope.Some? && p.scope.value.filter.Some? && TypeOf(p.scope.value) == Unassigned
      && q.scope.Some? && q.scope.value.filter == None
  {
    CompareEqualExact(p, q);
    if p.scope.Some? && q.scope.Some? {
      ScopeEqualsExact(p.scope.value, q.scope.value);
    }
  }

  /** Dropping a condition is not seen: a policy without one compares EQUAL to the same policy
      with one, and not the other way round. */
  lemma DroppedConditionUnseen(p: PolicyInfo, c: ConditionEquals.ConditionInfo)
    requires p.condition == None && p.actions.Some?
    ensures CompareEqual(p, p.(condition := Some(c)))
    ensures !CompareEqual(p.(condition := Some(c)), p)
  {
    forall i | 0 <= i < |p.subjects| ensures HasFold(p.subjects, p.subjects[i]) {
      assert EqualFold(p.subjects[i], p.subjects[i]);
    }
    forall i | 0 <= i < |p.actions.value| ensures HasFold(p.actions.value, p.actions.value[i]) {
      assert EqualFold(p.actions.value[i], p.actions.value[i]);
    }
  }

  // ----- member lists as sets

  function FoldSet(s: seq<string>): set<string> {
    set x | x in s :: ToLower(x)
  }

  predicate NoRepeats(s: seq<string>) {
    forall i, j :: 0 <= i < j < |s| ==> !EqualFold(s[i], s[j])
  }

  lemma FoldSetSnoc(s: seq<string>, x: string)
    ensures FoldSet(s + [x]) == FoldSet(s) + {ToLower(x)}
  {
    assert forall y :: y in s + [x] <==> y in s || y == x;
  }

  lemma NoRepeatsSnoc(s: seq<string>, x: string)
    ensures NoRepeats(s + [x]) <==> NoRepeats(s) && ToLower(x) !in FoldSet(s)
  {
    var t := s + [x];
    assert forall i :: 0 <= i < |s| ==> t[i] == s[i];
    if ToLower(x) in FoldSet(s) {
      var i :| 0 <= i < |s| && ToLower(s[i]) == ToLower(x);
      assert EqualFold(t[i], t[|s|]);
    } else {
      forall i | 0 <= i < |s| ensures !EqualFold(t[i], t[|s|]) {
        assert ToLower(s[i]) in FoldSet(s);
      }
    }
  }

  lemma {:induction false} FoldSetSize(s: seq<string>)
    ensures |FoldSet(s)| <= |s|
    ensures |FoldSet(s)| == |s| <==> NoRepeats(s)
  {
    if s == [] {
    } else {
      var init, x := s[..|s| - 1], s[|s| - 1];
      FoldSetSize(init);
      FoldSetSnoc(init, x);
      NoRepeatsSnoc(init, x);
      assert s == init + [x];
    }
  }

  lemma SubsetSameSize<T>(a: set<T>, b: set<T>)
    requires a <= b && |a| >= |b|
    ensures a == b
  {
    assert b == a + (b - a);
    assert |b| == |a| + |b - a|;
  }

  /** Main result, for all lists: the loops decide whether the lengths agree and every member of the
      first list, letter case aside, is a member of the second. */
  lemma MembersMatchExact(s: seq<string>, t: seq<string>)
    ensures MembersMatch(s, t) <==> |s| == |t| && FoldSet(s) <= FoldSet(t)
  {
    forall i | 0 <= i < |s| ensures HasFold(t, s[i]) <==> ToLower(s[i]) in FoldSet(t) {
      FoundExactly(t, s[i]);
    }
    if MembersMatch(s, t) {
      forall x | x in FoldSet(s) ensures x in FoldSet(t) {
        var m :| m in s && ToLower(m) == x;
        var i :| 0 <= i < |s| && s[i] == m;
        assert HasFold(t, s[i]);
      }
    }
    if FoldSet(s) <= FoldSet(t) {
      forall i | 0 <= i < |s| ensures HasFold(t, s[i]) {
        assert ToLower(s[i]) in FoldSet(s);
      }
    }
  }

  lemma FoundExactly(t: seq<string>, m: string)
    ensures HasFold(t, m) <==> ToLower(m) in FoldSet(t)
  {
    if HasFold(t, m) {
      var j :| 0 <= j < |t| && EqualFold(m, t[j]);
      assert t[j] in t;
    }
    if ToLower(m) in FoldSet(t) {
      var n :| n in t && ToLower(n) == ToLower(m);
      var j :| 0 <= j < |t| && t[j] == n;
      assert EqualFold(m, t[j]);
    }
  }

  /** Every list that matches `s` is matched by it. */
  ghost predicate Symmetric(s: seq<string>) {
    forall t :: MembersMatch(s, t) ==> MembersMatch(t, s)
  }

  /** Without repeats the match is equality of the two lists as sets. */
  lemma MatchIsSetEquality(s: seq<string>, t: seq<string>)
    requires NoRepeats(s)
    ensures MembersMatch(s, t) <==> |s| == |t| && FoldSet(s) == FoldSet(t)
    ensures MembersMatch(s, t) ==> MembersMatch(t, s)
  {
    MembersMatchExact(s, t);
    MembersMatchExact(t, s);
    FoldSetSize(s);
    FoldSetSize(t);
    if MembersMatch(s, t) {
      SubsetSameSize(FoldSet(s), FoldSet(t));
    }
  }

  /** A name longer than all of a list's. */
  lemma {:induction false} Fresh(s: seq<string>) returns (x: string)
    ensures forall m :: m in s ==> |m| < |x|
  {
    if s == [] {
      x := "";
    } else {
      var y := Fresh(s[1..]);
      x := (if |y| < |s[0]| then s[0] else y) + "x";
      assert forall m :: m in s ==> m == s[0] || m in s[1..];
    }
  }

  /** A repeated member leaves room for a stranger in the other list. */
  lemma RepeatsBreak(s: seq<string>) returns (t: seq<string>)
    requires !NoRepeats(s)
    ensures MembersMatch(s, t) && !MembersMatch(t, s)
  {
    var i, j :| 0 <= i < j < |s| && EqualFold(s[i], s[j]);
    var x := Fresh(s);
    t := s[j := x];
    forall k | 0 <= k < |s| ensures HasFold(t, s[k]) {
      assert EqualFold(s[k], t[if k == j then i else k]);
    }
    assert !HasFold(s, t[j]);
  }

  /** Main result: the match is symmetric from `s` exactly when `s` has no repeats. */
  lemma SymmetricExact(s: seq<string>)
    ensures Symmetric(s) <==> NoRepeats(s)
  {
    if NoRepeats(s) {
      forall t | MembersMatch(s, t) ensures MembersMatch(t, s) {
        MatchIsSetEquality(s, t);
      }
    } else {
      var t := RepeatsBreak(s);
    }
  }

  /** The smallest example. */
  lemma RepeatsAsymmetric()
    ensures MembersMatch(["a", "a"], ["a", "b"]) && !MembersMatch(["a", "b"], ["a", "a"])
  {
    var s, t := ["a", "a"], ["a", "b"];
    assert EqualFold(s[0], t[0]) && EqualFold(s[1], t[0]);
    assert ToLower("b")[0] == 'b' && ToLower("a")[0] == 'a';
    assert !HasFold(s, t[1]);
  }
}
