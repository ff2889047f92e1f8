/** Role lists: sorting with duplicates dropped, and the three-way difference of two lists. */
module Roles {
  import opened Collections
  import opened Sorting
  import opened Strings

  predicate Blank(s: string) {
    TrimSpace(s) == ""
  }

  /** The roles that count: blank ones are skipped everywhere. */
  function NonBlankSet(s: seq<string>): set<string> {
    set x | x in s && !Blank(x)
  }

  /** slices.Compact: equal neighbours become one. */
  function Compact(s: seq<string>): seq<string> {
    if |s| <= 1 then s
    else if s[0] == s[1] then Compact(s[1..])
    else [s[0]] + Compact(s[1..])
  }

  function SkipBlanks(s: seq<string>): seq<string> {
    if s != [] && Blank(s[0]) then SkipBlanks(s[1..]) else s
  }

  function SortCompact(arr: seq<string>): seq<string> {
    SkipBlanks(Compact(SortStrings(arr)))
  }

  /** SortCompact's own loop: advance past the leading blanks. */
  method SortAndCompact(arr: seq<string>) returns (r: seq<string>)
    ensures r == SortCompact(arr)
  {
    var compacted := Compact(SortStrings(arr));
    var startIdx := 0;
    while startIdx < |compacted|
      invariant startIdx <= |compacted|
      invariant SkipBlanks(compacted) == SkipBlanks(compacted[startIdx..])
    {
      assert compacted[startIdx..][1..] == compacted[startIdx + 1..];
      if !Blank(compacted[startIdx]) {
        break;
      }
      startIdx := startIdx + 1;
    }
    r := compacted[startIdx..];
  }

  predicate Ascending(s: seq<string>) {
    forall i, j :: 0 <= i < j < |s| ==> Le(s[i], s[j]) && s[i] != s[j]
  }

  lemma {:induction false} CompactAscends(s: seq<string>)
    requires Sorted(s)
    ensures Elements(Compact(s)) == Elements(s)
    ensures Ascending(Compact(s))
    ensures s != [] ==> Compact(s) != [] && Compact(s)[0] == s[0]
  {
    if |s| <= 1 {
    } else {
      CompactAscends(s[1..]);
      assert s == [s[0]] + s[1..];
      var t := Compact(s[1..]);
      if s[0] == s[1] {
        assert Elements(s) == Elements(s[1..]);
      } else {
        assert Elements([s[0]] + t) == {s[0]} + Elements(t);
        LeTotal(s[1], s[1]);
        forall j | 0 <= j < |t| ensures Le(s[0], t[j]) && s[0] != t[j] {
          assert t[j] in Elements(s[1..]);
          var k :| 0 <= k < |s[1..]| && s[1..][k] == t[j];
          assert s[k + 1] == t[j] && Le(s[1], s[k + 1]);
          if s[0] == t[j] {
            LeAntisymmetric(s[0], s[1]);
          }
        }
      }
    }
  }

  lemma {:induction false} SkipBlanksKeeps(s: seq<string>)
    requires Ascending(s)
    ensures Ascending(SkipBlanks(s)) && NonBlankSet(SkipBlanks(s)) == NonBlankSet(s)
    ensures Elements(SkipBlanks(s)) <= Elements(s)
  {
    if s == [] || !Blank(s[0]) {
    } else {
      SkipBlanksKeeps(s[1..]);
      assert s == [s[0]] + s[1..];
    }
  }

  lemma SortElements(arr: seq<string>)
    ensures Elements(SortStrings(arr)) == Elements(arr)
  {
    forall x ensures x in SortStrings(arr) <==> x in arr {
      assert x in SortStrings(arr) <==> x in multiset(SortStrings(arr));
    }
  }

  /** The list comes out ascending without repeats, and loses blanks only. */
  lemma SortCompactKeeps(arr: seq<string>)
    ensures Ascending(SortCompact(arr)) && NonBlankSet(SortCompact(arr)) == NonBlankSet(arr)
    ensures Elements(SortCompact(arr)) <= Elements(arr)
  {
    var s := SortStrings(arr);
    SortElements(arr);
    CompactAscends(s);
    SkipBlanksKeeps(Compact(s));
    forall x ensures x in NonBlankSet(Compact(s)) <==> x in NonBlankSet(arr) {
      assert x in Elements(Compact(s)) <==> x in Elements(arr);
    }
  }

  lemma {:induction false} SkipBlanksExact(s: seq<string>, x: string)
    requires Ascending(s)
    ensures x in SkipBlanks(s) <==> x in s && exists y :: y in s && !Blank(y) && Le(y, x)
  {
    LeTotal(x, x);
    if s == [] {
    } else if !Blank(s[0]) {
      assert s[0] in s;
    } else {
      SkipBlanksExact(s[1..], x);
      assert s == [s[0]] + s[1..];
      if y :| y in s && !Blank(y) && Le(y, s[0]) {
        assert Le(s[0], y);
        LeAntisymmetric(s[0], y);
      }
    }
  }

  /** Exactly: what stays is what some non-blank member does not come after, so a blank is lost
      when it sorts before all of them. */
  lemma SortCompactExact(arr: seq<string>, x: string)
    ensures x in SortCompact(arr) <==> x in arr && exists y :: y in arr && !Blank(y) && Le(y, x)
  {
    var s := SortStrings(arr);
    SortElements(arr);
    CompactAscends(s);
    SkipBlanksExact(Compact(s), x);
    assert forall z :: z in Elements(Compact(s)) <==> z in Elements(arr);
    assert forall z :: z in Compact(s) <==> z in Elements(Compact(s));
  }

  lemma NoElements(s: seq<string>)
    ensures Elements(s) == {} ==> s == []
  {
    if s != [] {
      assert s[0] in Elements(s);
    }
  }

  lemma {:induction false} AscendingUnique(a: seq<string>, b: seq<string>)
    requires Ascending(a) && Ascending(b) && Elements(a) == Elements(b)
    ensures a == b
  {
    NoElements(b);
    if a == [] {
    } else {
      assert a[0] in Elements(b);
      var i :| 0 <= i < |b| && b[i] == a[0];
      assert b[0] in Elements(a);
      var j :| 0 <= j < |a| && a[j] == b[0];
      if i > 0 && j > 0 {
        LeAntisymmetric(a[0], b[0]);
      }
      assert a[0] == b[0];
      TailElements(a);
      TailElements(b);
      AscendingUnique(a[1..], b[1..]);
      assert a == [a[0]] + a[1..] && b == [b[0]] + b[1..];
    }
  }

  lemma TailElements(a: seq<string>)
    requires Ascending(a) && a != []
    ensures Ascending(a[1..]) && Elements(a[1..]) == Elements(a) - {a[0]}
  {
    assert a == [a[0]] + a[1..];
    forall k | 0 <= k < |a[1..]| ensures a[1..][k] != a[0] {
      assert a[1..][k] == a[k + 1];
    }
  }

  predicate NoBlanks(s: seq<string>) {
    forall x :: x in s ==> !Blank(x)
  }

  /** Lists without blanks that have the same elements sort and compact to the same list. */
  lemma SortCompactUnique(a: seq<string>, b: seq<string>)
    requires NoBlanks(a) && NoBlanks(b) && Elements(a) == Elements(b)
    ensures SortCompact(a) == SortCompact(b)
  {
    NoBlanksElements(a);
    NoBlanksElements(b);
    SortCompactKeeps(a);
    SortCompactKeeps(b);
    AscendingUnique(SortCompact(a), SortCompact(b));
  }

  lemma NoBlanksElements(a: seq<string>)
    requires NoBlanks(a)
    ensures Elements(SortCompact(a)) == Elements(a) && NoBlanks(SortCompact(a))
  {
    SortCompactKeeps(a);
    forall x | x in a ensures x in SortCompact(a) {
      assert x in NonBlankSet(a);
    }
    forall x | x in SortCompact(a) ensures !Blank(x) {
      assert x in Elements(SortCompact(a));
    }
  }

  predicate Distinct(s: seq<string>) {
    forall i, j :: 0 <= i < j < |s| ==> s[i] != s[j]
  }

  /** DiffUnique: roles of the first list only, of both, and of the second only, blanks left out.
      The first two come in the order of a map. */
  method DiffUnique(arr1: seq<string>, arr2: seq<string>)
    returns (diff1: seq<string>, intersection: seq<string>, diff2: seq<string>)
    ensures Elements(diff1) == NonBlankSet(arr1) - NonBlankSet(arr2)
    ensures Elements(intersection) == NonBlankSet(arr1) * NonBlankSet(arr2)
    ensures Elements(diff2) == NonBlankSet(arr2) - NonBlankSet(arr1)
    ensures Distinct(diff1) && Distinct(intersection) && Ascending(diff2)
  {
    var sorted1 := SortAndCompact(arr1);
    var sorted2 := SortAndCompact(arr2);
    SortCompactKeeps(arr1);
    SortCompactKeeps(arr2);
    var map1 := Unmarked(sorted1);
    map1, diff2 := Mark(map1, sorted2);
    diff1, intersection := SplitMarks(map1);
  }

  /** First loop: every role of the first list, not yet found in the second. */
  method Unmarked(sorted1: seq<string>) returns (map1: map<string, bool>)
    ensures map1.Keys == NonBlankSet(sorted1)
    ensures forall x :: x in map1 ==> !map1[x]
  {
    map1 := map[];
    for i := 0 to |sorted1|
      invariant map1.Keys == NonBlankSet(sorted1[..i])
      invariant forall x :: x in map1 ==> !map1[x]
    {
      assert sorted1[..i + 1] == sorted1[..i] + [sorted1[i]];
      if !Blank(sorted1[i]) {
        map1 := map1[sorted1[i] := false];
      }
    }
    assert sorted1[..|sorted1|] == sorted1;
  }

  lemma NonBlankSnoc(s: seq<string>, x: string)
    ensures NonBlankSet(s + [x]) == NonBlankSet(s) + if Blank(x) then {} else {x}
  {
    assert forall y :: y in s + [x] <==> y in s || y == x;
  }

  /** Second loop: roles of the second list are marked or set aside. */
  method Mark(map0: map<string, bool>, sorted2: seq<string>) returns (map1: map<string, bool>, diff2: seq<string>)
    requires forall x :: x in map0 ==> !map0[x]
    ensures map1.Keys == map0.Keys
    ensures forall x :: x in map1 ==> (map1[x] <==> x in NonBlankSet(sorted2))
    ensures Elements(diff2) == NonBlankSet(sorted2) - map0.Keys
    ensures Ascending(sorted2) ==> Ascending(diff2)
  {
    map1, diff2 := map0, [];
    for i := 0 to |sorted2|
      invariant map1.Keys == map0.Keys
      invariant forall x :: x in map1 ==> (map1[x] <==> x in NonBlankSet(sorted2[..i]))
      invariant Elements(diff2) == NonBlankSet(sorted2[..i]) - map0.Keys
      invariant Ascending(sorted2) ==> Ascending(diff2)
    {
      var val2 := sorted2[i];
      assert sorted2[..i + 1] == sorted2[..i] + [val2];
      NonBlankSnoc(sorted2[..i], val2);
      assert Elements(diff2 + [val2]) == Elements(diff2) + {val2};
      if !Blank(val2) {
        if val2 in map1 {
          map1 := map1[val2 := true];
        } else {
          if Ascending(sorted2) {
            AscendingSnoc(sorted2, i, diff2);
          }
          diff2 := diff2 + [val2];
        }
      }
    }
    assert sorted2[..|sorted2|] == sorted2;
  }

  lemma AscendingSnoc(s: seq<string>, i: nat, d: seq<string>)
    requires i < |s| && Ascending(s) && Ascending(d) && Elements(d) <= Elements(s[..i])
    ensures Ascending(d + [s[i]])
  {
    forall k | 0 <= k < |d| ensures Le(d[k], s[i]) && d[k] != s[i] {
      assert d[k] in Elements(d);
      var m :| 0 <= m < i && s[..i][m] == d[k];
      assert s[m] == d[k];
    }
  }

  method SplitMarks(map1: map<string, bool>) returns (diff1: seq<string>, intersection: seq<string>)
    ensures forall x :: x in diff1 <==> x in map1 && !map1[x]
    ensures forall x :: x in intersection <==> x in map1 && map1[x]
    ensures Distinct(diff1) && Distinct(intersection)
  {
    diff1, intersection := [], [];
    var rest := map1.Keys;
    while rest != {}
      invariant rest <= map1.Keys
      invariant forall x :: x in diff1 <==> x in map1 && x !in rest && !map1[x]
      invariant forall x :: x in intersection <==> x in map1 && x !in rest && map1[x]
      invariant Distinct(diff1) && Distinct(intersection)
      decreases |rest|
    {
      var ro :| ro in rest;
      if map1[ro] {
        intersection := intersection + [ro];
      } else {
        diff1 := diff1 + [ro];
      }
      rest := rest - {ro};
    }
  }

  function NonBlank(s: seq<string>): seq<string> {
    if s == [] then [] else NonBlank(s[..|s| - 1]) + (if Blank(s[|s| - 1]) then [] else [s[|s| - 1]])
  }

  lemma {:induction false} NonBlankElements(s: seq<string>)
    ensures Elements(NonBlank(s)) == NonBlankSet(s) && NoBlanks(NonBlank(s))
  {
    if s == [] {
    } else {
      NonBlankElements(s[..|s| - 1]);
      assert s == s[..|s| - 1] + [s[|s| - 1]];
      var t := if Blank(s[|s| - 1]) then [] else [s[|s| - 1]];
      assert Elements(NonBlank(s)) == Elements(NonBlank(s[..|s| - 1])) + Elements(t);
      forall x | x in NonBlank(s) ensures !Blank(x) {
        assert x in Elements(NonBlank(s));
      }
    }
  }

  /** findRolesToUpdate: nothing when both lists name the same roles, else the new roles sorted. */
  method FindRolesToUpdate(existingRoles: seq<string>, newRoles: seq<string>)
    returns (hasChanges: bool, changes: seq<string>)
    ensures hasChanges <==> NonBlankSet(existingRoles) != NonBlankSet(newRoles)
    ensures changes == if hasChanges then SortCompact(NonBlank(newRoles)) else []
  {
    var existingOnly, matches, newOnly := DiffUnique(existingRoles, newRoles);
    ghost var a, b := NonBlankSet(existingRoles), NonBlankSet(newRoles);
    assert existingOnly == [] <==> Elements(existingOnly) == {} by {
      if existingOnly != [] {
        assert existingOnly[0] in Elements(existingOnly);
      }
    }
    assert newOnly == [] <==> Elements(newOnly) == {} by {
      if newOnly != [] {
        assert newOnly[0] in Elements(newOnly);
      }
    }
    assert a == (a - b) + (a * b) && b == (b - a) + (a * b);
    if |existingOnly| == 0 && |newOnly| == 0 {
      return false, [];
    }
    hasChanges := true;
    changes := matches + newOnly;
    ChangesAreNew(changes, matches, newOnly, newRoles);
    changes := SortAndCompact(changes);
  }

  lemma ChangesAreNew(changes: seq<string>, matches: seq<string>, newOnly: seq<string>, newRoles: seq<string>)
    requires changes == matches + newOnly
    requires Elements(matches) + Elements(newOnly) == NonBlankSet(newRoles)
    ensures SortCompact(changes) == SortCompact(NonBlank(newRoles))
  {
    assert Elements(changes) == Elements(matches) + Elements(newOnly);
    NonBlankElements(newRoles);
    forall x | x in changes ensures !Blank(x) {
      assert x in Elements(changes);
    }
    SortCompactUnique(changes, NonBlank(newRoles));
  }
}
