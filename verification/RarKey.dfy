/** Resource-action-role keys: how an HTTP method and a resource become one provider key, and
    how the key is read back. */
module RarKey {
  import opened Strings

  datatype ResourceActionRoles = ResourceActionRoles(action: string, resource: string, roles: seq<string>)

  const NO_RAR := ResourceActionRoles("", "", [])

  const METHODS := ["GET", "HEAD", "POST", "PUT", "PATCH", "DELETE", "CONNECT", "OPTIONS", "TRACE"]

  function FindMethod(methods: seq<string>, action: string, prefix: string): string {
    if methods == [] then ""
    else if ToLower(prefix + methods[0]) == ToLower(action) then methods[0]
    else FindMethod(methods[1..], action, prefix)
  }

  /** getHttpMethod: the method whose prefixed name is the action, letter case aside, or "". */
  method GetHttpMethod(action: string, prefix: string) returns (m: string)
    ensures m == FindMethod(METHODS, action, prefix)
  {
    for i := 0 to |METHODS|
      invariant FindMethod(METHODS, action, prefix) == FindMethod(METHODS[i..], action, prefix)
    {
      assert METHODS[i..][1..] == METHODS[i + 1..];
      if ToLower(prefix + METHODS[i]) == ToLower(action) {
        return METHODS[i];
      }
    }
    return "";
  }

  function MakeRarKey(action: string, resource: string, prefix: string): string {
    var m := FindMethod(METHODS, action, prefix);
    if TrimSpace(resource) == "" || TrimSpace(action) == "" || m == "" then ""
    else Join(["resrol", "http" + ToLower(m), Replace(CutSlash(resource), '/', '-')], '-')
  }

  function Name(r: ResourceActionRoles): string {
    MakeRarKey(r.action, r.resource, "")
  }

  function Sanitize(members: seq<string>): seq<string> {
    if members == [] then []
    else
      var m := members[|members| - 1];
      Sanitize(members[..|members| - 1]) + (if TrimSpace(m) == "" then [] else [TrimSpace(m)])
  }

  method SanitizeMembers(members: seq<string>) returns (sanitized: seq<string>)
    ensures sanitized == Sanitize(members)
  {
    sanitized := [];
    for i := 0 to |members|
      invariant sanitized == Sanitize(members[..i])
    {
      assert members[..i + 1][..i] == members[..i];
      if TrimSpace(members[i]) != "" {
        sanitized := sanitized + [TrimSpace(members[i])];
      }
    }
    assert members[..|members|] == members;
  }

  /** newResourceActionRoles. */
  function NewRar(resource: string, action: string, roles: seq<string>): ResourceActionRoles {
    if TrimSpace(resource) == "" || TrimSpace(action) == "" then NO_RAR
    else ResourceActionRoles(action, "/" + TrimSpace(CutSlash(TrimSpace(resource))), Sanitize(roles))
  }

  function NewRarFromProviderValue(key: string, roles: seq<string>): ResourceActionRoles {
    var parts := Split(key, '-');
    if |parts| < 3 || parts[0] != "resrol" then NO_RAR
    else
      var m := FindMethod(METHODS, parts[1], "http");
      if m == "" then NO_RAR else NewRar(Join(parts[2..], '/'), m, roles)
  }

  // ----- methods

  predicate IsMethod(m: string) {
    m in METHODS
  }

  predicate Upper(m: string) {
    m != "" && forall i :: 0 <= i < |m| ==> 'A' <= m[i] <= 'Z'
  }

  lemma MethodsUpper()
    ensures forall i :: 0 <= i < |METHODS| ==> Upper(METHODS[i])
  {}

  /** Length and first letter tell the methods apart. */
  lemma MethodsDistinct(i: nat, j: nat)
    requires i < j < |METHODS|
    ensures |METHODS[i]| != |METHODS[j]| || LowerChar(METHODS[i][0]) != LowerChar(METHODS[j][0])
  {}

  lemma {:induction false} FindSelf(i: nat, k: nat, action: string, prefix: string)
    requires i <= k < |METHODS| && ToLower(action) == ToLower(prefix + METHODS[k])
    ensures FindMethod(METHODS[i..], action, prefix) == METHODS[k]
    decreases k - i
  {
    var p, a := ToLower(prefix + METHODS[i]), ToLower(action);
    MethodsUpper();
    if i < k {
      MethodsDistinct(i, k);
      assert |p| == |a| ==> p[|prefix|] != a[|prefix|];
      assert METHODS[i..][1..] == METHODS[i + 1..];
      FindSelf(i + 1, k, action, prefix);
    }
  }

  /** A method is found under its own prefixed name, however that is cased. */
  lemma MethodFound(m: string, action: string, prefix: string)
    requires IsMethod(m) && ToLower(action) == ToLower(prefix + m)
    ensures FindMethod(METHODS, action, prefix) == m
  {
    var k :| 0 <= k < |METHODS| && METHODS[k] == m;
    assert METHODS[0..] == METHODS;
    FindSelf(0, k, action, prefix);
  }

  lemma {:induction false} FindMethodExact(methods: seq<string>, action: string, prefix: string)
    ensures var m := FindMethod(methods, action, prefix);
      m != "" ==> m in methods && ToLower(prefix + m) == ToLower(action)
  {
    if methods == [] {
    } else {
      FindMethodExact(methods[1..], action, prefix);
    }
  }

  lemma MethodUpper(m: string)
    requires IsMethod(m)
    ensures Upper(m)
  {
    MethodsUpper();
    var k :| 0 <= k < |METHODS| && METHODS[k] == m;
    assert Upper(METHODS[k]);
  }

  lemma LowerTwice(a: string, m: string)
    requires forall i :: 0 <= i < |m| ==> 'A' <= m[i] <= 'Z'
    ensures ToLower(a + ToLower(m)) == ToLower(a + m)
  {
    var x, y := a + ToLower(m), a + m;
    forall i | 0 <= i < |x| ensures LowerChar(x[i]) == LowerChar(y[i]) {
      if i >= |a| {
        assert x[i] == LowerChar(m[i - |a|]) && y[i] == m[i - |a|];
      }
    }
  }

  lemma MethodText(m: string)
    requires IsMethod(m)
    ensures m != "" && TrimSpace(m) == m && '-' !in ToLower(m)
    ensures ToLower("" + m) == ToLower(m) && ToLower("http" + ToLower(m)) == ToLower("http" + m)
  {
    MethodUpper(m);
    TrimKeeps(m);
    assert "" + m == m;
    forall i | 0 <= i < |m| ensures ToLower(m)[i] != '-' {
      assert 'A' <= m[i] <= 'Z';
    }
    LowerTwice("http", m);
  }

  // ----- round trip

  /** A slash and a trimmed, non-empty path without dashes or a second leading slash. */
  predicate Canonical(resource: string) {
    && |resource| > 1 && resource[0] == '/'
    && var q := resource[1..];
       TrimSpace(q) == q && q[0] != '/' && '-' !in q
  }

  lemma OnePiece(a: string, t: string)
    requires '-' !in a
    ensures Split(a + ['-'] + t, '-') == [a] + Split(t, '-')
  {
    var k := ['-'] + t;
    assert k[1..] == t && a + "" == a;
    SplitPrefix(a, k, '-');
    assert a + k == a + ['-'] + t;
  }

  lemma JoinThree(a: string, h: string, rest: string)
    ensures Join([a, h, rest], '-') == a + ['-'] + (h + ['-'] + rest)
  {
    var two := [h, rest];
    assert [a, h, rest][1..] == two && two[1..] == [rest];
    assert Join([rest], '-') == rest;
    assert Join(two, '-') == h + ['-'] + rest;
  }

  lemma KeyParts(a: string, h: string, rest: string)
    requires '-' !in a && '-' !in h
    ensures Split(Join([a, h, rest], '-'), '-') == [a, h] + Split(rest, '-')
  {
    calc {
      Split(Join([a, h, rest], '-'), '-');
      { JoinThree(a, h, rest); }
      Split(a + ['-'] + (h + ['-'] + rest), '-');
      { OnePiece(a, h + ['-'] + rest); }
      [a] + Split(h + ['-'] + rest, '-');
      { OnePiece(h, rest); }
      [a] + ([h] + Split(rest, '-'));
      [a, h] + Split(rest, '-');
    }
  }

  /** Reading a key back gives the resource with its dashes turned into slashes, normalised. */
  lemma ReadKey(m: string, resource: string, roles: seq<string>)
    requires IsMethod(m) && TrimSpace(resource) != ""
    ensures NewRarFromProviderValue(Name(ResourceActionRoles(m, resource, roles)), roles)
         == NewRar(Replace(CutSlash(resource), '-', '/'), m, roles)
  {
    MethodText(m);
    MethodFound(m, m, "");
    var rest := Replace(CutSlash(resource), '/', '-');
    var key := Name(ResourceActionRoles(m, resource, roles));
    KeyParts("resrol", "http" + ToLower(m), rest);
    var parts := Split(key, '-');
    assert parts[2..] == Split(rest, '-');
    MethodFound(m, parts[1], "http");
    JoinSplitReplaces(rest, '-', '/');
    assert Replace(rest, '-', '/') == Replace(CutSlash(resource), '-', '/');
  }

  /** The key is `resrol`, the method in any letter case behind `http`, and a rest that is not blank. */
  predicate IsKey(key: string, m: string, h: string, rest: string) {
    && IsMethod(m) && '-' !in h && ToLower(h) == ToLower("http" + m)
    && key == Join(["resrol", h, rest], '-')
    && TrimSpace(Replace(rest, '-', '/')) != ""
  }

  lemma KeyRead(key: string, m: string, h: string, rest: string, roles: seq<string>)
    requires IsKey(key, m, h, rest)
    ensures NewRarFromProviderValue(key, roles) == NewRar(Replace(rest, '-', '/'), m, roles) != NO_RAR
  {
    KeyParts("resrol", h, rest);
    var parts := Split(key, '-');
    assert parts[2..] == Split(rest, '-');
    MethodText(m);
    MethodFound(m, h, "http");
    JoinSplitReplaces(rest, '-', '/');
  }

  /** And what is read is such a key: anything else gives the empty entry. */
  lemma KeyReadExactly(key: string, roles: seq<string>)
    ensures NewRarFromProviderValue(key, roles) != NO_RAR <==> exists m, h, rest :: IsKey(key, m, h, rest)
  {
    if m, h, rest :| IsKey(key, m, h, rest) {
      KeyRead(key, m, h, rest, roles);
    }
    if NewRarFromProviderValue(key, roles) != NO_RAR {
      var parts := Split(key, '-');
      var m, h, rest := FindMethod(METHODS, parts[1], "http"), parts[1], Join(parts[2..], '-');
      FindMethodExact(METHODS, h, "http");
      JoinSplit(key, '-');
      assert parts == ["resrol", h] + parts[2..];
      JoinTail("resrol", h, parts[2..]);
      SplitFree(key, '-');
      SplitJoin(parts[2..], '-');
      JoinSplitReplaces(rest, '-', '/');
      assert IsKey(key, m, h, rest);
    }
  }

  lemma JoinTail(a: string, h: string, tail: seq<string>)
    requires tail != []
    ensures Join([a, h] + tail, '-') == Join([a, h, Join(tail, '-')], '-')
  {
    JoinThree(a, h, Join(tail, '-'));
    assert ([a, h] + tail)[1..] == [h] + tail && ([h] + tail)[1..] == tail;
  }

  /** The members that are kept: trimmed, without the blank ones, in order. */
  lemma SanitizeKeeps(a: seq<string>, m: string, b: seq<string>)
    ensures Sanitize(a + [m] + b) == Sanitize(a) + (if TrimSpace(m) == "" then [] else [TrimSpace(m)]) + Sanitize(b)
  {
    SanitizeCat(a + [m], b);
    SanitizeCat(a, [m]);
    assert [m][..0] == [];
  }

  lemma {:induction false} SanitizeCat(a: seq<string>, b: seq<string>)
    ensures Sanitize(a + b) == Sanitize(a) + Sanitize(b)
  {
    if b == [] {
      assert a + b == a;
    } else {
      var init, m := b[..|b| - 1], b[|b| - 1];
      assert (a + b)[..|a + b| - 1] == a + init && (a + b)[|a + b| - 1] == m;
      SanitizeCat(a, init);
      var t := if TrimSpace(m) == "" then [] else [TrimSpace(m)];
      assert (Sanitize(a) + Sanitize(init)) + t == Sanitize(a) + (Sanitize(init) + t);
    }
  }

  /** Turning dashes into slashes and normalising gives a resource back exactly when it is canonical. */
  lemma NormaliseExact(resource: string)
    ensures "/" + TrimSpace(CutSlash(TrimSpace(Replace(CutSlash(resource), '-', '/')))) == resource
         && TrimSpace(Replace(CutSlash(resource), '-', '/')) != ""
       <==> Canonical(resource)
  {
    var q := CutSlash(resource);
    var p := Replace(q, '-', '/');
    var t := TrimSpace(p);
    TrimShort(p);
    TrimShort(CutSlash(t));
    assert '-' !in p;
    if Canonical(resource) {
      assert p == q;
    }
  }

  /** Main result: for every HTTP method and every resource, the key read back gives the same
      method and resource exactly when the resource is canonical. */
  lemma KeyRoundTripExact(m: string, resource: string, roles: seq<string>)
    requires IsMethod(m)
    ensures NewRarFromProviderValue(Name(ResourceActionRoles(m, resource, roles)), roles)
              == ResourceActionRoles(m, resource, Sanitize(roles))
       <==> Canonical(resource)
  {
    MethodText(m);
    if TrimSpace(resource) == "" {
      assert Split("", '-') == [""];
      if Canonical(resource) {
        BlankNotCanonical(resource);
      }
    } else {
      ReadKey(m, resource, roles);
      NormaliseExact(resource);
    }
  }

  lemma BlankNotCanonical(resource: string)
    requires Canonical(resource)
    ensures TrimSpace(resource) != ""
  {
    assert resource[0] == '/';
    SlashStays(resource);
  }

  lemma {:induction false} SlashStays(s: string)
    requires s != "" && !IsSpace(s[0])
    ensures TrimRight(s) != "" && TrimLeft(s) == s
    decreases |s|
  {
    if |s| == 1 || !IsSpace(s[|s| - 1]) {
    } else {
      SlashStays(s[..|s| - 1]);
    }
  }

  /** A key splits into its method and the path it was made of. */
  lemma KeySplits(m: string, r: string)
    requires IsMethod(m) && TrimSpace(r) != ""
    ensures var parts := Split(Name(ResourceActionRoles(m, r, [])), '-');
      && |parts| > 2 && FindMethod(METHODS, parts[1], "http") == m
      && Join(parts[2..], '-') == Replace(CutSlash(r), '/', '-')
  {
    MethodText(m);
    MethodFound(m, m, "");
    var rest := Replace(CutSlash(r), '/', '-');
    KeyParts("resrol", "http" + ToLower(m), rest);
    var parts := Split(Name(ResourceActionRoles(m, r, [])), '-');
    assert parts[2..] == Split(rest, '-');
    MethodFound(m, parts[1], "http");
    JoinSplit(rest, '-');
  }

  /** Main result, for all resources that are not blank: two keys agree exactly when the methods do and
      the paths do, slashes and dashes taken for the same. */
  lemma KeysExact(m: string, r: string, m': string, r': string)
    requires IsMethod(m) && IsMethod(m') && TrimSpace(r) != "" && TrimSpace(r') != ""
    ensures Name(ResourceActionRoles(m, r, [])) == Name(ResourceActionRoles(m', r', []))
       <==> m == m' && Replace(CutSlash(r), '/', '-') == Replace(CutSlash(r'), '/', '-')
  {
    KeySplits(m, r);
    KeySplits(m', r');
    if m == m' {
      MethodText(m);
      MethodFound(m, m, "");
    }
  }

  /** On canonical resources keys are one-to-one. */
  lemma KeysInjective(m: string, r: string, m': string, r': string)
    requires IsMethod(m) && IsMethod(m') && Canonical(r) && Canonical(r')
    requires Name(ResourceActionRoles(m, r, [])) == Name(ResourceActionRoles(m', r', []))
    ensures m == m' && r == r'
  {
    KeyRoundTripExact(m, r, []);
    KeyRoundTripExact(m', r', []);
  }
}
