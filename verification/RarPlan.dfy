/** CalcResourceActionRolesForUpdate: which resource-action entries must change so that they hold
    the roles the policies ask for. */
module RarPlan {
  import opened Collections
  import opened Strings
  import opened Roles
  import opened RarKey

  datatype Policy = Policy(actions: seq<string>, obj: string, subjects: seq<string>)

  /** A flattened policy: one action on one resource. */
  datatype Flat = Flat(action: string, resource: string, members: seq<string>)

  // ----- FlattenPolicy

  function AddFlat(m: map<string, Flat>, act: string, resource: string, subjects: seq<string>): map<string, Flat> {
    if TrimSpace(act) == "" then m
    else
      var key := act + resource;
      var existing := if key in m then m[key].members else [];
      m[key := Flat(act, resource, SortCompact(existing + subjects))]
  }

  function AddActions(m: map<string, Flat>, acts: seq<string>, p: Policy): map<string, Flat> {
    if acts == [] then m
    else AddFlat(AddActions(m, acts[..|acts| - 1], p), acts[|acts| - 1], p.obj, p.subjects)
  }

  function Flatten(policies: seq<Policy>): map<string, Flat> {
    if policies == [] then map[]
    else
      var p := policies[|policies| - 1];
      var m := Flatten(policies[..|policies| - 1]);
      if p.obj == "" then m else AddActions(m, p.actions, p)
  }

  /** The values of the map, each once, in some order. */
  ghost predicate Lists(flat: seq<Flat>, m: map<string, Flat>) {
    |flat| == |m| && forall f :: f in flat <==> f in m.Values
  }

  method FlattenPolicy(policies: seq<Policy>) returns (flat: seq<Flat>)
    ensures Lists(flat, Flatten(policies))
  {
    var m: map<string, Flat> := map[];
    for i := 0 to |policies|
      invariant m == Flatten(policies[..i])
    {
      var pol := policies[i];
      assert policies[..i + 1][..i] == policies[..i];
      if pol.obj != "" {
        ghost var m0 := m;
        for j := 0 to |pol.actions|
          invariant m == AddActions(m0, pol.actions[..j], pol)
        {
          assert pol.actions[..j + 1][..j] == pol.actions[..j];
          var act := pol.actions[j];
          if TrimSpace(act) != "" {
            var lookupKey := act + pol.obj;
            var existingMembers: seq<string> := [];
            if lookupKey in m {
              existingMembers := m[lookupKey].members;
            }
            var newMembers := SortAndCompact(existingMembers + pol.subjects);
            m := m[lookupKey := Flat(act, pol.obj, newMembers)];
          }
        }
        assert pol.actions[..|pol.actions|] == pol.actions;
      }
    }
    assert policies[..|policies|] == policies;
    flat := Values(m);
  }

  method Values(m: map<string, Flat>) returns (flat: seq<Flat>)
    ensures Lists(flat, m)
  {
    flat := [];
    var rest := m.Keys;
    while rest != {}
      invariant rest <= m.Keys && |flat| + |rest| == |m.Keys|
      invariant forall f :: f in flat <==> exists k :: k in m && k !in rest && m[k] == f
      decreases |rest|
    {
      var k :| k in rest;
      flat := flat + [m[k]];
      rest := rest - {k};
    }
  }

  // ----- the plan

  function KeyOf(action: string, resource: string): string {
    MakeRarKey(action, resource, "http:")
  }

  function NewRarFromUri(resource: string, actionUri: string, roles: seq<string>): ResourceActionRoles {
    var m := FindMethod(METHODS, actionUri, "http:");
    if m == "" then NO_RAR else NewRar(resource, m, roles)
  }

  function ByName(rars: seq<ResourceActionRoles>): map<string, ResourceActionRoles> {
    if rars == [] then map[]
    else ByName(rars[..|rars| - 1])[Name(rars[|rars| - 1]) := rars[|rars| - 1]]
  }

  predicate Differs(m: map<string, ResourceActionRoles>, f: Flat) {
    var key := KeyOf(f.action, f.resource);
    key in m && NonBlankSet(m[key].roles) != NonBlankSet(f.members)
  }

  function UpdateOf(f: Flat): ResourceActionRoles {
    NewRarFromUri(f.resource, f.action, SortCompact(NonBlank(f.members)))
  }

  function Plan(m: map<string, ResourceActionRoles>, flat: seq<Flat>): seq<ResourceActionRoles> {
    if flat == [] then []
    else
      var f := flat[|flat| - 1];
      Plan(m, flat[..|flat| - 1]) + (if Differs(m, f) then [UpdateOf(f)] else [])
  }

  /** The updates planned for the flattened policies, taken in some order. */
  ghost predicate IsPlan(updates: seq<ResourceActionRoles>, existing: seq<ResourceActionRoles>, policies: seq<Policy>) {
    exists flat :: Lists(flat, Flatten(policies)) && updates == Plan(ByName(existing), flat)
  }

  method CalcResourceActionRolesForUpdate(existing: seq<ResourceActionRoles>, policies: seq<Policy>)
    returns (updates: seq<ResourceActionRoles>)
    ensures IsPlan(updates, existing, policies)
  {
    var rarMap: map<string, ResourceActionRoles> := map[];
    for i := 0 to |existing|
      invariant rarMap == ByName(existing[..i])
    {
      assert existing[..i + 1][..i] == existing[..i];
      rarMap := rarMap[Name(existing[i]) := existing[i]];
    }
    assert existing[..|existing|] == existing;
    var newPolicies := FlattenPolicy(policies);
    updates := [];
    for i := 0 to |newPolicies|
      invariant updates == Plan(rarMap, newPolicies[..i])
    {
      var pol := newPolicies[i];
      assert newPolicies[..i + 1][..i] == newPolicies[..i];
      var newRarKey := KeyOf(pol.action, pol.resource);
      if newRarKey in rarMap {
        var hasChanges, rolesToUpdate := FindRolesToUpdate(rarMap[newRarKey].roles, pol.members);
        if hasChanges {
          updates := updates + [NewRarFromUri(pol.resource, pol.action, rolesToUpdate)];
        }
      }
    }
    assert newPolicies[..|newPolicies|] == newPolicies;
  }

  // ----- what the policies ask for

  /** One action of one policy. */
  datatype Grant = Grant(action: string, obj: string, subjects: seq<string>)

  function ActionGrants(acts: seq<string>, p: Policy): seq<Grant> {
    if acts == [] then [] else ActionGrants(acts[..|acts| - 1], p) + [Grant(acts[|acts| - 1], p.obj, p.subjects)]
  }

  /** Every action of every policy, in order. */
  function Grants(policies: seq<Policy>): seq<Grant> {
    if policies == [] then []
    else Grants(policies[..|policies| - 1]) + ActionGrants(policies[|policies| - 1].actions, policies[|policies| - 1])
  }

  /** Not skipped: it has a resource and an action. */
  predicate Live(g: Grant) {
    g.obj != "" && TrimSpace(g.action) != ""
  }

  /** The subjects of every policy that names the entry with this key. */
  function Wanted(gs: seq<Grant>, key: string): set<string> {
    set g, s | g in gs && Live(g) && KeyOf(g.action, g.obj) == key && s in g.subjects :: s
  }

  predicate Named(gs: seq<Grant>, key: string) {
    exists g :: g in gs && Live(g) && KeyOf(g.action, g.obj) == key
  }

  predicate Trimmed(s: seq<string>) {
    forall x :: x in s ==> x != "" && TrimSpace(x) == x
  }

  /** Roles carry no outer white space and are not blank. */
  predicate CleanRoles(existing: seq<ResourceActionRoles>, gs: seq<Grant>) {
    && (forall g :: g in gs ==> Trimmed(g.subjects))
    && (forall r :: r in existing ==> Trimmed(r.roles))
  }

  /** Different action and resource pairs have different lookup keys and different entry keys. */
  predicate OneToOne(gs: seq<Grant>) {
    forall g, h :: g in gs && h in gs && Live(g) && Live(h)
      && (g.action + g.obj == h.action + h.obj
          || (KeyOf(g.action, g.obj) == KeyOf(h.action, h.obj) && KeyOf(g.action, g.obj) != ""))
      ==> g.action == h.action && g.obj == h.obj
  }

  /** Existing entries have distinct keys, none of them empty. */
  predicate DistinctNames(existing: seq<ResourceActionRoles>) {
    && (forall i :: 0 <= i < |existing| ==> Name(existing[i]) != "")
    && (forall i, j :: 0 <= i < j < |existing| ==> Name(existing[i]) != Name(existing[j]))
  }

  /** The path of a resource, after its slash, has no outer white space. */
  predicate TrimmedPath(resource: string) {
    TrimSpace(CutSlash(resource)) == CutSlash(resource)
  }

  predicate TrimmedPaths(gs: seq<Grant>) {
    forall g :: g in gs ==> TrimmedPath(g.obj)
  }

  // ----- flattening collects the union

  function AddGrants(m: map<string, Flat>, gs: seq<Grant>): map<string, Flat> {
    if gs == [] then m
    else
      var g := gs[|gs| - 1];
      var m' := AddGrants(m, gs[..|gs| - 1]);
      if g.obj == "" then m' else AddFlat(m', g.action, g.obj, g.subjects)
  }

  lemma {:induction false} AddGrantsCat(m: map<string, Flat>, a: seq<Grant>, b: seq<Grant>)
    ensures AddGrants(m, a + b) == AddGrants(AddGrants(m, a), b)
  {
    if b == [] {
      assert a + b == a;
    } else {
      assert (a + b)[..|a + b| - 1] == a + b[..|b| - 1];
      AddGrantsCat(m, a, b[..|b| - 1]);
    }
  }

  lemma {:induction false} ActionsAsGrants(m: map<string, Flat>, acts: seq<string>, p: Policy)
    ensures AddGrants(m, ActionGrants(acts, p)) == if p.obj == "" then m else AddActions(m, acts, p)
  {
    if acts == [] {
    } else {
      ActionsAsGrants(m, acts[..|acts| - 1], p);
      var gs := ActionGrants(acts, p);
      assert gs[..|gs| - 1] == ActionGrants(acts[..|acts| - 1], p);
    }
  }

  lemma {:induction false} FlattenAsGrants(policies: seq<Policy>)
    ensures Flatten(policies) == AddGrants(map[], Grants(policies))
  {
    if policies == [] {
    } else {
      var init, p := policies[..|policies| - 1], policies[|policies| - 1];
      FlattenAsGrants(init);
      AddGrantsCat(map[], Grants(init), ActionGrants(p.actions, p));
      ActionsAsGrants(Flatten(init), p.actions, p);
    }
  }

  function Collected(gs: seq<Grant>, k: string): set<string> {
    set g, s | g in gs && Live(g) && g.action + g.obj == k && s in g.subjects :: s
  }

  /** Under each lookup key: a grant's own action and resource, and the union of the subjects. */
  ghost predicate Faithful(gs: seq<Grant>, k: string, f: Flat) {
    && Trimmed(f.members) && Elements(f.members) == Collected(gs, k)
    && f.action + f.resource == k
    && exists g :: g in gs && Live(g) && g.action == f.action && g.obj == f.resource
  }

  ghost predicate FlatFor(gs: seq<Grant>, m: map<string, Flat>) {
    && (forall g :: g in gs && Live(g) ==> g.action + g.obj in m)
    && (forall k :: k in m ==> Faithful(gs, k, m[k]))
  }

  lemma TrimmedSort(a: seq<string>)
    requires Trimmed(a)
    ensures Trimmed(SortCompact(a)) && Elements(SortCompact(a)) == Elements(a)
  {
    NoBlanksElements(a);
    forall x | x in SortCompact(a) ensures x in a {
      assert x in Elements(SortCompact(a));
    }
  }

  lemma CollectedSnoc(gs: seq<Grant>, g: Grant, k: string)
    ensures Collected(gs + [g], k)
         == Collected(gs, k) + if Live(g) && g.action + g.obj == k then Elements(g.subjects) else {}
  {}

  lemma {:induction false} GrantsFlat(gs: seq<Grant>)
    requires forall g :: g in gs ==> Trimmed(g.subjects)
    ensures FlatFor(gs, AddGrants(map[], gs))
  {
    if gs == [] {
    } else {
      var init, g := gs[..|gs| - 1], gs[|gs| - 1];
      assert gs == init + [g];
      GrantsFlat(init);
      GrantFlat(init, g, AddGrants(map[], init));
    }
  }

  /** The entry a grant is added to. */
  lemma GrantAdds(init: seq<Grant>, g: Grant, m: map<string, Flat>, existing: seq<string>)
    requires FlatFor(init, m) && Trimmed(g.subjects) && Live(g)
    requires existing == if g.action + g.obj in m then m[g.action + g.obj].members else []
    ensures Faithful(init + [g], g.action + g.obj, Flat(g.action, g.obj, SortCompact(existing + g.subjects)))
  {
    var key := g.action + g.obj;
    assert g in init + [g];
    CollectedSnoc(init, g, key);
    assert key in m ==> Faithful(init, key, m[key]);
    assert key !in m ==> Collected(init, key) == {};
    assert Trimmed(existing + g.subjects);
    TrimmedSort(existing + g.subjects);
    assert Elements(existing + g.subjects) == Elements(existing) + Elements(g.subjects);
  }

  lemma GrantFlat(init: seq<Grant>, g: Grant, m: map<string, Flat>)
    requires FlatFor(init, m) && Trimmed(g.subjects)
    ensures FlatFor(init + [g], if g.obj == "" then m else AddFlat(m, g.action, g.obj, g.subjects))
  {
    var gs := init + [g];
    var m' := if g.obj == "" then m else AddFlat(m, g.action, g.obj, g.subjects);
    var key := g.action + g.obj;
    assert forall h :: h in gs <==> h in init || h == g;
    forall k | k in m' ensures Faithful(gs, k, m'[k]) {
      if k == key && Live(g) {
        GrantAdds(init, g, m, if key in m then m[key].members else []);
      } else {
        CollectedSnoc(init, g, k);
        assert Faithful(init, k, m[k]);
      }
    }
  }

  // ----- the updates and what they do

  lemma SanitizeSnoc(init: seq<string>, m: string)
    requires m != "" && TrimSpace(m) == m
    ensures Sanitize(init + [m]) == Sanitize(init) + [m]
  {
    assert (init + [m])[..|init|] == init;
  }

  /** Sanitizing clean roles changes nothing. */
  lemma {:induction false} SanitizeTrimmed(roles: seq<string>)
    requires Trimmed(roles)
    ensures Sanitize(roles) == roles
  {
    if roles == [] {
    } else {
      var init, m := roles[..|roles| - 1], roles[|roles| - 1];
      assert roles == init + [m] && m in roles;
      assert forall x :: x in init ==> x in roles;
      SanitizeTrimmed(init);
      SanitizeSnoc(init, m);
    }
  }

  lemma SlashTrim(r: string)
    requires r != "" && r[0] == '/'
    ensures TrimSpace(r) == ['/'] + TrimRight(r[1..])
    decreases |r|
  {
    var q := r[1..];
    assert TrimLeft(r) == r;
    if q != "" && IsSpace(q[|q| - 1]) {
      var r' := r[..|r| - 1];
      assert r'[1..] == q[..|q| - 1];
      SlashTrim(r');
      assert TrimLeft(r') == r';
    } else {
      assert r == ['/'] + q;
    }
  }

  /** What normalising leaves of a resource's path: the same text exactly when it is trimmed. */
  lemma PathExact(r: string)
    requires TrimSpace(r) != ""
    ensures TrimmedPath(r) ==> TrimSpace(CutSlash(TrimSpace(r))) == CutSlash(r)
    ensures !TrimmedPath(r) ==> |TrimSpace(CutSlash(TrimSpace(r)))| < |CutSlash(r)|
  {
    var t := TrimSpace(r);
    TrimShort(r);
    TrimShort(CutSlash(t));
    TrimShort(CutSlash(r));
    if r[0] == '/' {
      SlashTrim(r);
      var q := r[1..];
      TrimRightShort(q);
      TrimLeftShort(q);
      TrimRightShort(TrimLeft(q));
      assert CutSlash(t) == TrimRight(q);
    }
  }

  lemma KeyLength(a: string, h: string, x: string)
    ensures |Join([a, h, x], '-')| == |a| + |h| + |x| + 2
  {
    assert [a, h, x][1..] == [h, x] && [h, x][1..] == [x];
    assert Join([x], '-') == x;
    assert Join([h, x], '-') == h + ['-'] + x;
  }

  /** An update is filed under the key it was looked up by exactly when the path is trimmed. */
  lemma UpdateKeyExact(f: Flat)
    requires KeyOf(f.action, f.resource) != ""
    ensures Name(UpdateOf(f)) == KeyOf(f.action, f.resource) <==> TrimmedPath(f.resource)
    ensures UpdateOf(f).roles == Sanitize(SortCompact(NonBlank(f.members)))
  {
    var m := FindMethod(METHODS, f.action, "http:");
    FindMethodExact(METHODS, f.action, "http:");
    MethodText(m);
    MethodFound(m, m, "");
    var u := UpdateOf(f);
    var q, q' := CutSlash(f.resource), TrimSpace(CutSlash(TrimSpace(f.resource)));
    PathExact(f.resource);
    assert u.resource == "/" + q' && CutSlash(u.resource) == q';
    SlashStays(u.resource);
    KeyLength("resrol", "http" + ToLower(m), Replace(q, '/', '-'));
    KeyLength("resrol", "http" + ToLower(m), Replace(q', '/', '-'));
  }

  lemma {:induction false} PlanMembers(m: map<string, ResourceActionRoles>, flat: seq<Flat>, u: ResourceActionRoles)
    ensures u in Plan(m, flat) <==> exists f :: f in flat && Differs(m, f) && u == UpdateOf(f)
  {
    if flat == [] {
    } else {
      var init, f := flat[..|flat| - 1], flat[|flat| - 1];
      PlanMembers(m, init, u);
      assert flat == init + [f];
    }
  }

  /** Writing one update: the entry with its key takes its roles. */
  function Write(r: ResourceActionRoles, updates: seq<ResourceActionRoles>): ResourceActionRoles {
    if updates == [] then r
    else
      var u := updates[|updates| - 1];
      if Name(u) == Name(r) then r.(roles := u.roles) else Write(r, updates[..|updates| - 1])
  }

  function Apply(existing: seq<ResourceActionRoles>, updates: seq<ResourceActionRoles>): seq<ResourceActionRoles> {
    seq(|existing|, i requires 0 <= i < |existing| => Write(existing[i], updates))
  }

  lemma {:induction false} WriteFound(r: ResourceActionRoles, updates: seq<ResourceActionRoles>, roles: seq<string>)
    requires forall u :: u in updates && Name(u) == Name(r) ==> u.roles == roles
    ensures Write(r, updates) == if exists u :: u in updates && Name(u) == Name(r) then r.(roles := roles) else r
  {
    if updates == [] {
    } else {
      var init, u := updates[..|updates| - 1], updates[|updates| - 1];
      assert updates == init + [u];
      if Name(u) != Name(r) {
        WriteFound(r, init, roles);
      }
    }
  }

  lemma {:induction false} ByNameFinds(existing: seq<ResourceActionRoles>, i: nat)
    requires i < |existing| && DistinctNames(existing)
    ensures Name(existing[i]) in ByName(existing) && ByName(existing)[Name(existing[i])] == existing[i]
  {
    var init := existing[..|existing| - 1];
    if i < |init| {
      assert DistinctNames(init);
      ByNameFinds(init, i);
      assert Name(existing[i]) != Name(existing[|existing| - 1]);
    }
  }

  lemma {:induction false} ByNameOnly(existing: seq<ResourceActionRoles>, key: string)
    requires key in ByName(existing)
    ensures ByName(existing)[key] in existing && Name(ByName(existing)[key]) == key
  {
    var init, last := existing[..|existing| - 1], existing[|existing| - 1];
    assert existing == init + [last];
    if key != Name(last) {
      ByNameOnly(init, key);
    }
  }

  // ----- convergence

  /** Every flattened policy comes from the grants and holds what they want for its entry. */
  lemma FlatWanted(gs: seq<Grant>, m: map<string, Flat>, f: Flat)
    requires FlatFor(gs, m) && f in m.Values && OneToOne(gs)
    requires KeyOf(f.action, f.resource) != ""
    ensures Elements(f.members) == Wanted(gs, KeyOf(f.action, f.resource)) && Trimmed(f.members)
    ensures Named(gs, KeyOf(f.action, f.resource))
    ensures exists g :: g in gs && Live(g) && g.action == f.action && g.obj == f.resource
  {
    var k :| k in m && m[k] == f;
    assert Faithful(gs, k, f);
    var g :| g in gs && Live(g) && g.action == f.action && g.obj == f.resource;
    var key := KeyOf(f.action, f.resource);
    forall s ensures s in Collected(gs, k) <==> s in Wanted(gs, key) {
      if s in Collected(gs, k) {
        var h :| h in gs && Live(h) && h.action + h.obj == k && s in h.subjects;
        assert h.action == g.action && h.obj == g.obj;
      }
      if s in Wanted(gs, key) {
        var h :| h in gs && Live(h) && KeyOf(h.action, h.obj) == key && s in h.subjects;
        assert h.action == g.action && h.obj == g.obj;
      }
    }
  }

  lemma NamedFlat(gs: seq<Grant>, m: map<string, Flat>, key: string) returns (f: Flat)
    requires FlatFor(gs, m) && Named(gs, key) && OneToOne(gs)
    ensures f in m.Values && KeyOf(f.action, f.resource) == key
  {
    var g :| g in gs && Live(g) && KeyOf(g.action, g.obj) == key;
    var k := g.action + g.obj;
    assert Faithful(gs, k, m[k]);
    f := m[k];
    var h :| h in gs && Live(h) && h.action == f.action && h.obj == f.resource;
  }

  lemma OneFlatPerKey(gs: seq<Grant>, m: map<string, Flat>, f: Flat, f': Flat)
    requires FlatFor(gs, m) && f in m.Values && f' in m.Values && OneToOne(gs)
    requires KeyOf(f.action, f.resource) == KeyOf(f'.action, f'.resource) != ""
    ensures f == f'
  {
    var k :| k in m && m[k] == f;
    var k' :| k' in m && m[k'] == f';
    assert Faithful(gs, k, f) && Faithful(gs, k', f');
    var g :| g in gs && Live(g) && g.action == f.action && g.obj == f.resource;
    var h :| h in gs && Live(h) && h.action == f'.action && h.obj == f'.resource;
  }

  predicate CleanInput(existing: seq<ResourceActionRoles>, gs: seq<Grant>) {
    CleanRoles(existing, gs) && OneToOne(gs) && DistinctNames(existing) && TrimmedPaths(gs)
  }

  lemma UpdateRoles(f: Flat)
    requires Trimmed(f.members) && KeyOf(f.action, f.resource) != ""
    ensures Trimmed(UpdateOf(f).roles) && Elements(UpdateOf(f).roles) == Elements(f.members)
  {
    UpdateKeyExact(f);
    NonBlankElements(f.members);
    var nb := NonBlank(f.members);
    assert Trimmed(nb) by {
      forall x | x in nb ensures x in f.members {
        assert x in Elements(nb);
      }
    }
    TrimmedSort(nb);
    SanitizeTrimmed(SortCompact(nb));
    TrimmedNonBlank(f.members);
  }

  lemma TrimmedNonBlank(s: seq<string>)
    requires Trimmed(s)
    ensures NonBlankSet(s) == Elements(s)
  {}

  /** One entry after the updates. */
  lemma EntryAfter(existing: seq<ResourceActionRoles>, gs: seq<Grant>, m: map<string, Flat>, flat: seq<Flat>, i: nat)
    requires CleanInput(existing, gs) && FlatFor(gs, m) && Lists(flat, m) && i < |existing|
    ensures var r := existing[i];
      var r' := Write(r, Plan(ByName(existing), flat));
      if Named(gs, Name(r)) then
        r' == r.(roles := r'.roles) && Elements(r'.roles) == Wanted(gs, Name(r)) && Trimmed(r'.roles)
      else r' == r
  {
    var r := existing[i];
    var key := Name(r);
    var rars := ByName(existing);
    var plan := Plan(rars, flat);
    ByNameFinds(existing, i);
    assert existing[i] in existing;
    forall u | u in plan && Name(u) == key
      ensures exists f :: f in flat && Differs(rars, f) && u == UpdateOf(f) && KeyOf(f.action, f.resource) == key
    {
      PlanMembers(rars, flat, u);
      var f :| f in flat && Differs(rars, f) && u == UpdateOf(f);
      PlannedKey(existing, gs, m, flat, f);
    }
    if Named(gs, key) {
      var f := NamedFlat(gs, m, key);
      FlatWanted(gs, m, f);
      UpdateRoles(f);
      PlannedName(gs, f);
      TrimmedNonBlank(r.roles);
      TrimmedNonBlank(f.members);
      forall u | u in plan && Name(u) == key ensures u == UpdateOf(f) && Differs(rars, f) {
        var f' :| f' in flat && Differs(rars, f') && u == UpdateOf(f') && KeyOf(f'.action, f'.resource) == key;
        OneFlatPerKey(gs, m, f, f');
      }
      WriteFound(r, plan, UpdateOf(f).roles);
      if Differs(rars, f) {
        PlanMembers(rars, flat, UpdateOf(f));
        assert UpdateOf(f) in plan;
      }
    } else {
      forall u | u in plan ensures Name(u) != key {
        if Name(u) == key {
          var f :| f in flat && Differs(rars, f) && u == UpdateOf(f) && KeyOf(f.action, f.resource) == key;
          FlatWanted(gs, m, f);
          assert false;
        }
      }
      WriteFound(r, plan, []);
    }
  }

  lemma PlannedName(gs: seq<Grant>, f: Flat)
    requires TrimmedPaths(gs) && KeyOf(f.action, f.resource) != ""
    requires exists g :: g in gs && Live(g) && g.action == f.action && g.obj == f.resource
    ensures Name(UpdateOf(f)) == KeyOf(f.action, f.resource)
  {
    var g :| g in gs && Live(g) && g.action == f.action && g.obj == f.resource;
    UpdateKeyExact(f);
  }

  lemma PlannedKey(existing: seq<ResourceActionRoles>, gs: seq<Grant>, m: map<string, Flat>, flat: seq<Flat>, f: Flat)
    requires CleanInput(existing, gs) && FlatFor(gs, m) && Lists(flat, m)
    requires f in flat && Differs(ByName(existing), f)
    ensures KeyOf(f.action, f.resource) != "" && Name(UpdateOf(f)) == KeyOf(f.action, f.resource)
  {
    var key := KeyOf(f.action, f.resource);
    ByNameOnly(existing, key);
    FlatWanted(gs, m, f);
    PlannedName(gs, f);
  }

  /** Main result: one planning step converges. For clean input, writing the updates makes every
      entry some policy names hold exactly the union of the subjects over the policies that name
      it, leaves every other entry as it was, and a second step plans nothing. */
  lemma Converges(existing: seq<ResourceActionRoles>, policies: seq<Policy>, updates: seq<ResourceActionRoles>)
    requires CleanInput(existing, Grants(policies)) && IsPlan(updates, existing, policies)
    ensures var after := Apply(existing, updates);
      && (forall i :: 0 <= i < |existing| ==>
            if Named(Grants(policies), Name(existing[i])) then
              after[i] == existing[i].(roles := after[i].roles)
              && Elements(after[i].roles) == Wanted(Grants(policies), Name(existing[i]))
            else after[i] == existing[i])
      && (forall again :: IsPlan(again, after, policies) ==> again == [])
  {
    var flat :| Lists(flat, Flatten(policies)) && updates == Plan(ByName(existing), flat);
    var gs := Grants(policies);
    var m := Flatten(policies);
    FlattenAsGrants(policies);
    GrantsFlat(gs);
    var after := Apply(existing, updates);
    forall i | 0 <= i < |existing|
      ensures Name(after[i]) == Name(existing[i]) && Trimmed(after[i].roles)
      ensures if Named(gs, Name(existing[i])) then
                after[i] == existing[i].(roles := after[i].roles)
                && Elements(after[i].roles) == Wanted(gs, Name(existing[i]))
              else after[i] == existing[i]
    {
      EntryAfter(existing, gs, m, flat, i);
      assert existing[i] in existing;
    }
    forall r | r in after ensures Satisfied(gs, r) {
      var i :| 0 <= i < |after| && after[i] == r;
      assert Name(existing[i]) != "";
    }
    forall again | IsPlan(again, after, policies) ensures again == [] {
      var flat2 :| Lists(flat2, m) && again == Plan(ByName(after), flat2);
      SecondStep(after, gs, m, flat2);
    }
  }

  /** The entry has a key and, if named, exactly the roles wanted for it. */
  predicate Satisfied(gs: seq<Grant>, r: ResourceActionRoles) {
    && Name(r) != "" && Trimmed(r.roles)
    && (Named(gs, Name(r)) ==> Elements(r.roles) == Wanted(gs, Name(r)))
  }

  lemma SecondStep(after: seq<ResourceActionRoles>, gs: seq<Grant>, m: map<string, Flat>, flat: seq<Flat>)
    requires OneToOne(gs) && FlatFor(gs, m) && Lists(flat, m)
    requires forall r :: r in after ==> Satisfied(gs, r)
    ensures Plan(ByName(after), flat) == []
  {
    forall f | f in flat ensures !Differs(ByName(after), f) {
      Settled(after, gs, m, f, KeyOf(f.action, f.resource));
    }
    NothingPlanned(ByName(after), flat);
  }

  lemma Settled(after: seq<ResourceActionRoles>, gs: seq<Grant>, m: map<string, Flat>, f: Flat, key: string)
    requires OneToOne(gs) && FlatFor(gs, m) && f in m.Values && key == KeyOf(f.action, f.resource)
    requires forall r :: r in after ==> Satisfied(gs, r)
    ensures !Differs(ByName(after), f)
  {
    if key in ByName(after) {
      ByNameOnly(after, key);
      var r := ByName(after)[key];
      assert Satisfied(gs, r);
      SameRoles(gs, m, f, r.roles);
    }
  }

  lemma SameRoles(gs: seq<Grant>, m: map<string, Flat>, f: Flat, roles: seq<string>)
    requires FlatFor(gs, m) && f in m.Values && OneToOne(gs) && Trimmed(roles)
    requires KeyOf(f.action, f.resource) != ""
    requires Named(gs, KeyOf(f.action, f.resource)) ==> Elements(roles) == Wanted(gs, KeyOf(f.action, f.resource))
    ensures NonBlankSet(roles) == NonBlankSet(f.members)
  {
    FlatWanted(gs, m, f);
    TrimmedNonBlank(roles);
    TrimmedNonBlank(f.members);
  }

  lemma {:induction false} NothingPlanned(rars: map<string, ResourceActionRoles>, flat: seq<Flat>)
    requires forall f :: f in flat ==> !Differs(rars, f)
    ensures Plan(rars, flat) == []
  {
    if flat == [] {
    } else {
      var init := flat[..|flat| - 1];
      assert forall f :: f in init ==> f in flat;
      assert flat[|flat| - 1] in flat;
      NothingPlanned(rars, init);
    }
  }

  // ----- when no state is settled

  /** Writing keeps the entries and their keys. */
  lemma {:induction false} WriteKeeps(r: ResourceActionRoles, updates: seq<ResourceActionRoles>)
    ensures Name(Write(r, updates)) == Name(r)
  {
    if updates == [] {
    } else {
      WriteKeeps(r, updates[..|updates| - 1]);
    }
  }

  /** Some entry has the key. */
  predicate Carries(rars: seq<ResourceActionRoles>, key: string) {
    exists r :: r in rars && Name(r) == key
  }

  lemma {:induction false} ByNameKeys(rars: seq<ResourceActionRoles>, key: string)
    ensures key in ByName(rars) <==> Carries(rars, key)
  {
    if rars == [] {
    } else {
      var init, last := rars[..|rars| - 1], rars[|rars| - 1];
      ByNameKeys(init, key);
      assert forall r :: r in rars <==> r in init || r == last;
    }
  }

  lemma {:induction false} SomethingPlanned(rars: map<string, ResourceActionRoles>, flat: seq<Flat>, f: Flat)
    requires f in flat && Differs(rars, f)
    ensures Plan(rars, flat) != []
  {
    PlanMembers(rars, flat, UpdateOf(f));
  }

  predicate SameNames(a: seq<ResourceActionRoles>, b: seq<ResourceActionRoles>) {
    |a| == |b| && forall i :: 0 <= i < |a| ==> Name(a[i]) == Name(b[i])
  }

  lemma SameNamesCarry(a: seq<ResourceActionRoles>, b: seq<ResourceActionRoles>, key: string)
    requires SameNames(a, b)
    ensures key in ByName(a) <==> key in ByName(b)
  {
    ByNameKeys(a, key);
    ByNameKeys(b, key);
    if r :| r in a && Name(r) == key {
      var i :| 0 <= i < |a| && a[i] == r;
      assert b[i] in b && Name(b[i]) == key;
    }
    if r :| r in b && Name(r) == key {
      var i :| 0 <= i < |b| && b[i] == r;
      assert a[i] in a && Name(a[i]) == key;
    }
  }

  lemma ApplyKeeps(existing: seq<ResourceActionRoles>, updates: seq<ResourceActionRoles>)
    ensures SameNames(existing, Apply(existing, updates))
  {
    forall i | 0 <= i < |existing| ensures Name(existing[i]) == Name(Apply(existing, updates)[i]) {
      WriteKeeps(existing[i], updates);
    }
  }

  /** Two flattened policies for one entry ask for different roles. */
  ghost predicate Conflict(m: map<string, Flat>, key: string) {
    exists f, g :: f in m.Values && g in m.Values && AsksFor(f, key) && AsksFor(g, key)
      && NonBlankSet(f.members) != NonBlankSet(g.members)
  }

  predicate AsksFor(f: Flat, key: string) {
    KeyOf(f.action, f.resource) == key
  }

  /** With a conflict over an entry there is something to update in every state, and so after every
      update. */
  lemma ConflictNeverSettles(existing: seq<ResourceActionRoles>, policies: seq<Policy>,
                             updates: seq<ResourceActionRoles>, key: string)
    requires key in ByName(existing) && Conflict(Flatten(policies), key) && IsPlan(updates, existing, policies)
    ensures updates != [] && key in ByName(Apply(existing, updates))
  {
    var m := Flatten(policies);
    var flat :| Lists(flat, m) && updates == Plan(ByName(existing), flat);
    var f, g :| f in m.Values && g in m.Values && AsksFor(f, key) && AsksFor(g, key)
      && NonBlankSet(f.members) != NonBlankSet(g.members);
    SomethingPlanned(ByName(existing), flat, if Differs(ByName(existing), f) then f else g);
    ApplyKeeps(existing, updates);
    SameNamesCarry(existing, Apply(existing, updates), key);
  }

  /** Nothing is planned in this state. */
  ghost predicate Stable(after: seq<ResourceActionRoles>, policies: seq<Policy>) {
    forall again :: IsPlan(again, after, policies) ==> again == []
  }

  /** The roles some flattened policy asks for, where there is one. */
  ghost function Asked(m: map<string, Flat>, r: ResourceActionRoles): ResourceActionRoles {
    if f :| f in m.Values && AsksFor(f, Name(r)) then r.(roles := f.members) else r
  }

  ghost function AllAsked(m: map<string, Flat>, rs: seq<ResourceActionRoles>): seq<ResourceActionRoles> {
    seq(|rs|, i requires 0 <= i < |rs| => Asked(m, rs[i]))
  }

  lemma StableNoConflict(after: seq<ResourceActionRoles>, policies: seq<Policy>, key: string)
    requires Stable(after, policies) && key in ByName(after)
    ensures !Conflict(Flatten(policies), key)
  {
    if Conflict(Flatten(policies), key) {
      var flat := Listed(Flatten(policies));
      ConflictNeverSettles(after, policies, Plan(ByName(after), flat), key);
    }
  }

  /** Some roles for these entries leave nothing to update. */
  ghost predicate CanSettle(existing: seq<ResourceActionRoles>, policies: seq<Policy>) {
    exists after :: SameNames(existing, after) && Stable(after, policies)
  }

  /** No two flattened policies are in conflict over one of the entries. */
  ghost predicate NoConflicts(existing: seq<ResourceActionRoles>, policies: seq<Policy>) {
    forall key :: Carries(existing, key) ==> !Conflict(Flatten(policies), key)
  }

  lemma SettledNoConflict(existing: seq<ResourceActionRoles>, policies: seq<Policy>, key: string)
    requires CanSettle(existing, policies) && Carries(existing, key)
    ensures !Conflict(Flatten(policies), key)
  {
    ByNameKeys(existing, key);
    var after :| SameNames(existing, after) && Stable(after, policies);
    SameNamesCarry(existing, after, key);
    StableNoConflict(after, policies, key);
  }

  /** Main result, for entries with distinct keys and any policies: some roles for these entries leave
      nothing to update exactly when no two flattened policies are in conflict over one of them. */
  lemma SettlesExactly(existing: seq<ResourceActionRoles>, policies: seq<Policy>)
    requires DistinctNames(existing)
    ensures CanSettle(existing, policies) <==> NoConflicts(existing, policies)
  {
    if CanSettle(existing, policies) {
      forall key | Carries(existing, key) ensures !Conflict(Flatten(policies), key) {
        SettledNoConflict(existing, policies, key);
      }
    } else if NoConflicts(existing, policies) {
      AskedStable(existing, policies);
    }
  }

  lemma AskedStable(existing: seq<ResourceActionRoles>, policies: seq<Policy>)
    requires DistinctNames(existing) && NoConflicts(existing, policies)
    ensures CanSettle(existing, policies)
  {
    var m := Flatten(policies);
    var after := AllAsked(m, existing);
    AskedNames(m, existing);
    forall again | IsPlan(again, after, policies) ensures again == [] {
      var flat :| Lists(flat, m) && again == Plan(ByName(after), flat);
      forall f | f in flat ensures !Differs(ByName(after), f) {
        ByNameKeys(existing, KeyOf(f.action, f.resource));
        AskedSettles(existing, m, f, KeyOf(f.action, f.resource));
      }
      NothingPlanned(ByName(after), flat);
    }
    assert SameNames(existing, after) && Stable(after, policies);
  }

  lemma AskedNames(m: map<string, Flat>, rs: seq<ResourceActionRoles>)
    ensures SameNames(rs, AllAsked(m, rs))
  {}

  lemma {:induction false} Listed(m: map<string, Flat>) returns (flat: seq<Flat>)
    ensures Lists(flat, m)
  {
    flat := ListKeys(m, m.Keys);
    assert forall f :: f in flat <==> f in m.Values;
  }

  lemma {:induction false} ListKeys(m: map<string, Flat>, keys: set<string>) returns (flat: seq<Flat>)
    requires keys <= m.Keys
    ensures |flat| == |keys| && forall f :: f in flat <==> exists k :: k in keys && m[k] == f
    decreases |keys|
  {
    if keys == {} {
      flat := [];
    } else {
      var k :| k in keys;
      var rest := ListKeys(m, keys - {k});
      flat := rest + [m[k]];
    }
  }

  lemma AskedSettles(existing: seq<ResourceActionRoles>, m: map<string, Flat>, f: Flat, key: string)
    requires DistinctNames(existing) && f in m.Values && AsksFor(f, key)
    requires key in ByName(existing) ==> !Conflict(m, key)
    ensures !Differs(ByName(AllAsked(m, existing)), f)
  {
    var after := AllAsked(m, existing);
    if key in ByName(after) {
      AskedNames(m, existing);
      SameNamesCarry(existing, after, key);
      ByNameOnly(after, key);
      var i :| 0 <= i < |after| && after[i] == ByName(after)[key];
      AskedHolds(m, existing[i], f);
      assert Name(existing[i]) == key;
    }
  }

  lemma AskedHolds(m: map<string, Flat>, r: ResourceActionRoles, f: Flat)
    requires f in m.Values && AsksFor(f, Name(r)) && !Conflict(m, Name(r))
    ensures NonBlankSet(Asked(m, r).roles) == NonBlankSet(f.members)
  {}

  lemma TwoGrants(p: Policy, q: Policy, gs: seq<Grant>)
    requires |p.actions| == |q.actions| == 1
    requires gs == [Grant(p.actions[0], p.obj, p.subjects), Grant(q.actions[0], q.obj, q.subjects)]
    ensures Grants([p, q]) == gs
  {
    assert [p, q][..1] == [p] && [p][..0] == [];
    OneActionGrant(p);
    OneActionGrant(q);
    assert Grants([p]) == [gs[0]];
    assert [gs[0]] + [gs[1]] == gs;
  }

  lemma OneActionGrant(p: Policy)
    requires |p.actions| == 1
    ensures ActionGrants(p.actions, p) == [Grant(p.actions[0], p.obj, p.subjects)]
  {
    assert p.actions[..0] == [] && ActionGrants([], p) == [];
  }

  /** What is flattened under a lookup key that one grant only has. */
  lemma SingleGrant(gs: seq<Grant>, m: map<string, Flat>, g: Grant, a: string)
    requires FlatFor(gs, m) && g in gs && Live(g) && g.subjects == [a]
    requires forall h :: h in gs && h.obj == g.obj && h != g ==> h.action + h.obj != g.action + g.obj
    requires forall h :: h in gs ==> h.obj == g.obj
    ensures g.action + g.obj in m
    ensures var f := m[g.action + g.obj]; f.action == g.action && f.resource == g.obj && NonBlankSet(f.members) == {a}
  {
    var k := g.action + g.obj;
    assert Faithful(gs, k, m[k]);
    var h :| h in gs && Live(h) && h.action == m[k].action && h.obj == m[k].resource;
    assert h == g;
    assert g.subjects[0] == a;
    forall s ensures s in Collected(gs, k) <==> s == a {
      if s in Collected(gs, k) {
        var h' :| h' in gs && Live(h') && h'.action + h'.obj == k && s in h'.subjects;
        assert h' == g;
      } else {
        assert a in g.subjects;
      }
    }
    TrimmedNonBlank(m[k].members);
  }

  lemma SpellingsConflict(gs: seq<Grant>, m: map<string, Flat>, resource: string, a: string, b: string)
    requires a != b && resource != ""
    requires gs == [Grant("http:GET", resource, [a]), Grant("http:get", resource, [b])] && FlatFor(gs, m)
    ensures Conflict(m, KeyOf("http:GET", resource))
  {
    var g, h := gs[0], gs[1];
    SpellingsApart(resource);
    TrimKeeps("http:GET");
    TrimKeeps("http:get");
    SingleGrant(gs, m, g, a);
    SingleGrant(gs, m, h, b);
    SameEntry(resource);
    var x, y := m[g.action + resource], m[h.action + resource];
    assert x in m.Values && y in m.Values;
    assert AsksFor(x, KeyOf("http:GET", resource)) && AsksFor(y, KeyOf("http:GET", resource));
    assert a in NonBlankSet(x.members) && a !in NonBlankSet(y.members);
  }

  lemma SameEntry(resource: string)
    ensures KeyOf("http:GET", resource) == KeyOf("http:get", resource)
  {
    SpellingsFold();
    TrimKeeps("http:GET");
    TrimKeeps("http:get");
    assert IsMethod("GET");
    MethodFound("GET", "http:GET", "http:");
    MethodFound("GET", "http:get", "http:");
  }

  lemma SpellingsApart(resource: string)
    ensures "http:GET" + resource != "http:get" + resource
  {
    assert ("http:GET" + resource)[5] == 'G' && ("http:get" + resource)[5] == 'g';
  }

  lemma SpellingsFold()
    ensures ToLower("http:GET") == ToLower("http:get") == ToLower("http:" + "GET")
  {
    assert "http:" + "GET" == "http:GET";
    assert |ToLower("http:GET")| == |ToLower("http:get")| == 8;
    assert forall i :: 0 <= i < 8 ==> LowerChar("http:GET"[i]) == LowerChar("http:get"[i]);
  }

  /** Two spellings of one method: policies that name `http:GET` and `http:get` on one resource with
      different subjects plan updates for ever. */
  lemma TwoSpellings(existing: seq<ResourceActionRoles>, resource: string, a: string, b: string,
                     updates: seq<ResourceActionRoles>)
    requires a != b && Trimmed([a]) && Trimmed([b]) && resource != ""
    requires KeyOf("http:GET", resource) in ByName(existing)
    requires IsPlan(updates, existing, [Policy(["http:GET"], resource, [a]), Policy(["http:get"], resource, [b])])
    ensures updates != [] && KeyOf("http:GET", resource) in ByName(Apply(existing, updates))
  {
    var p, q := Policy(["http:GET"], resource, [a]), Policy(["http:get"], resource, [b]);
    var gs := [Grant("http:GET", resource, [a]), Grant("http:get", resource, [b])];
    TwoGrants(p, q, gs);
    FlattenAsGrants([p, q]);
    GrantsFlat(gs);
    var m := Flatten([p, q]);
    SpellingsConflict(gs, m, resource, a, b);
    ConflictNeverSettles(existing, [p, q], updates, KeyOf("http:GET", resource));
  }
}
