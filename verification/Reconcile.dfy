/** ReconcilePolicies: the list of differences that turns the existing policies into the wanted ones. */
module Reconcile {
  import opened Collections
  import opened Idql
  import opened Policy

  datatype Dif =
    | Matched(exist: PolicyInfo, compare: PolicyInfo)
    | Update(exist: PolicyInfo, compare: PolicyInfo, difTypes: seq<Difference>)
    | New(compare: PolicyInfo)
    | Delete(exist: PolicyInfo)

  /** The two index maps: existing policies with an id, and the rest by etag. */
  datatype Known = Known(ids: map<string, PolicyInfo>, etags: map<Etag, PolicyInfo>)

  function LoadOne(k: Known, p: PolicyInfo): Known {
    match p.id
    case Some(id) => k.(ids := k.ids[id := p])
    case None => k.(etags := k.etags[CalculateEtag(p) := p])
  }

  function Load(existing: seq<PolicyInfo>): Known {
    if existing == [] then Known(map[], map[])
    else LoadOne(Load(existing[..|existing| - 1]), existing[|existing| - 1])
  }

  /** One wanted policy: looked up by id, then by etag, and taken out of the map it is found in. */
  function Take(k: Known, c: PolicyInfo): (Dif, Known) {
    if c.id.Some? && c.id.value in k.ids then
      var p := k.ids[c.id.value];
      var d := Compare(c, p);
      (if EQUAL in d then Matched(p, c) else Update(p, c, d), k.(ids := k.ids - {c.id.value}))
    else if CalculateEtag(c) in k.etags then
      (Matched(k.etags[CalculateEtag(c)], c), k.(etags := k.etags - {CalculateEtag(c)}))
    else (New(c), k)
  }

  function TakeAll(k: Known, compare: seq<PolicyInfo>): (seq<Dif>, Known) {
    if compare == [] then ([], k)
    else
      var (difs, k1) := TakeAll(k, compare[..|compare| - 1]);
      var (d, k2) := Take(k1, compare[|compare| - 1]);
      (difs + [d], k2)
  }

  /** diffsOnly leaves out what matched. */
  function Shown(difs: seq<Dif>, diffsOnly: bool): seq<Dif> {
    if difs == [] then []
    else
      var d := difs[|difs| - 1];
      Shown(difs[..|difs| - 1], diffsOnly) + (if diffsOnly && d.Matched? then [] else [d])
  }

  /** `p` is in the map its own key belongs to. */
  predicate Has(k: Known, p: PolicyInfo) {
    match p.id
    case Some(id) => id in k.ids && k.ids[id] == p
    case None => CalculateEtag(p) in k.etags && k.etags[CalculateEtag(p)] == p
  }

  /** Every policy is filed under its own key. */
  predicate Keyed(k: Known) {
    && (forall id :: id in k.ids ==> k.ids[id].id == Some(id))
    && (forall e :: e in k.etags ==> k.etags[e].id == None && CalculateEtag(k.etags[e]) == e)
  }

  // ----- counting what a list of differences does to a policy

  datatype Effect = Handles | Removes | Adds | Leaves

  /** Handles: the entry names `p` as existing. Removes, Adds: applying it does so.
      Leaves: `p` is what the entry leaves in place of its wanted policy. */
  predicate Hit(f: Effect, d: Dif, p: PolicyInfo) {
    match f
    case Handles => !d.New? && d.exist == p
    case Removes => (d.Update? || d.Delete?) && d.exist == p
    case Adds => (d.Update? || d.New?) && d.compare == p
    case Leaves => if d.Matched? || d.Delete? then d.Matched? && d.exist == p else d.compare == p
  }

  function Count(f: Effect, difs: seq<Dif>, p: PolicyInfo): nat {
    if difs == [] then 0 else Count(f, difs[..|difs| - 1], p) + One(Hit(f, difs[|difs| - 1], p))
  }

  lemma {:induction false} CountCat(f: Effect, a: seq<Dif>, b: seq<Dif>, p: PolicyInfo)
    ensures Count(f, a + b, p) == Count(f, a, p) + Count(f, b, p)
  {
    if b == [] {
      assert a + b == a;
    } else {
      assert (a + b)[..|a + b| - 1] == a + b[..|b| - 1];
      CountCat(f, a, b[..|b| - 1], p);
    }
  }

  /** The deletes implied by what is left in the maps: each policy once, in any order. */
  ghost predicate AreDeletes(dels: seq<Dif>, k: Known) {
    && (forall i :: 0 <= i < |dels| ==> dels[i].Delete?)
    && (forall p :: Count(Handles, dels, p) == One(Has(k, p)))
  }

  /** A list of differences: an entry for each wanted policy, in order and without the matches
      when only differences are shown, then the deletes. */
  ghost predicate Outcome(res: seq<Dif>, existing: seq<PolicyInfo>, compare: seq<PolicyInfo>, diffsOnly: bool) {
    var main := Shown(TakeAll(Load(existing), compare).0, diffsOnly);
    main <= res && AreDeletes(res[|main|..], TakeAll(Load(existing), compare).1)
  }

  method ReconcilePolicies(existing: seq<PolicyInfo>, compare: seq<PolicyInfo>, diffsOnly: bool) returns (res: seq<Dif>)
    ensures Outcome(res, existing, compare, diffsOnly)
  {
    var ids: map<string, PolicyInfo> := map[];
    var etags: map<Etag, PolicyInfo> := map[];
    for i := 0 to |existing|
      invariant Known(ids, etags) == Load(existing[..i])
    {
      var policy := existing[i];
      assert existing[..i + 1][..i] == existing[..i];
      match policy.id {
        case Some(id) => ids := ids[id := policy];
        case None => etags := etags[CalculateEtag(policy) := policy];
      }
    }
    assert existing[..|existing|] == existing;
    ghost var start := Load(existing);
    ghost var full: seq<Dif> := [];
    res := [];
    for i := 0 to |compare|
      invariant TakeAll(start, compare[..i]) == (full, Known(ids, etags))
      invariant res == Shown(full, diffsOnly)
    {
      var c := compare[i];
      assert compare[..i + 1][..i] == compare[..i];
      var d: Dif;
      if c.id.Some? && c.id.value in ids {
        var p := ids[c.id.value];
        var difTypes := Compare(c, p);
        d := if EQUAL in difTypes then Matched(p, c) else Update(p, c, difTypes);
        ids := ids - {c.id.value};
      } else if CalculateEtag(c) in etags {
        d := Matched(etags[CalculateEtag(c)], c);
        etags := etags - {CalculateEtag(c)};
      } else {
        d := New(c);
      }
      assert (full + [d])[..|full|] == full;
      full := full + [d];
      if !(diffsOnly && d.Matched?) {
        res := res + [d];
      }
    }
    assert compare[..|compare|] == compare;
    LoadKeyed(existing);
    TakeAllKeyed(start, compare);
    var rest := DeleteRemaining(ids, etags);
    ghost var main := res;
    res := res + rest;
    assert res[|main|..] == rest;
  }

  /** Deleting `p` next keeps the account: what is handled and what is still filed add up to `k0`. */
  ghost predicate Accounted(dels: seq<Dif>, k: Known, k0: Known) {
    && (forall i :: 0 <= i < |dels| ==> dels[i].Delete?)
    && (forall p :: Count(Handles, dels, p) + One(Has(k, p)) == One(Has(k0, p)))
  }

  lemma CountDelete(dels: seq<Dif>, q: PolicyInfo, p: PolicyInfo)
    ensures Count(Handles, dels + [Delete(q)], p) == Count(Handles, dels, p) + One(p == q)
  {
    assert (dels + [Delete(q)])[..|dels|] == dels;
  }

  lemma DeleteId(dels: seq<Dif>, k: Known, k0: Known, id: string)
    requires Keyed(k) && id in k.ids && Accounted(dels, k, k0)
    ensures Accounted(dels + [Delete(k.ids[id])], k.(ids := k.ids - {id}), k0)
  {
    RemoveId(k, id);
    forall p {
      CountDelete(dels, k.ids[id], p);
    }
  }

  lemma DeleteEtag(dels: seq<Dif>, k: Known, k0: Known, e: Etag)
    requires Keyed(k) && e in k.etags && Accounted(dels, k, k0)
    ensures Accounted(dels + [Delete(k.etags[e])], k.(etags := k.etags - {e}), k0)
  {
    RemoveEtag(k, e);
    forall p {
      CountDelete(dels, k.etags[e], p);
    }
  }

  /** The closing loops over the maps, in whatever order their keys come. */
  method DeleteRemaining(ids0: map<string, PolicyInfo>, etags0: map<Etag, PolicyInfo>) returns (dels: seq<Dif>)
    requires Keyed(Known(ids0, etags0))
    ensures AreDeletes(dels, Known(ids0, etags0))
  {
    dels := [];
    var ids, etags := ids0, etags0;
    while ids != map[]
      invariant Keyed(Known(ids, etags)) && Accounted(dels, Known(ids, etags), Known(ids0, etags0))
      decreases |ids|
    {
      assert ids.Keys != {};
      var id :| id in ids;
      DeleteId(dels, Known(ids, etags), Known(ids0, etags0), id);
      RemoveId(Known(ids, etags), id);
      dels := dels + [Delete(ids[id])];
      ids := ids - {id};
    }
    while etags != map[]
      invariant ids == map[] && Keyed(Known(ids, etags)) && Accounted(dels, Known(ids, etags), Known(ids0, etags0))
      decreases |etags|
    {
      assert etags.Keys != {};
      var e :| e in etags;
      DeleteEtag(dels, Known(ids, etags), Known(ids0, etags0), e);
      RemoveEtag(Known(ids, etags), e);
      dels := dels + [Delete(etags[e])];
      etags := etags - {e};
    }
  }

  lemma RemoveId(k: Known, id: string)
    requires Keyed(k) && id in k.ids
    ensures Keyed(k.(ids := k.ids - {id})) && |k.ids - {id}| < |k.ids|
    ensures forall p :: One(Has(k, p)) == One(Has(k.(ids := k.ids - {id}), p)) + One(p == k.ids[id])
  {
    assert k.ids == (k.ids - {id})[id := k.ids[id]];
  }

  lemma RemoveEtag(k: Known, e: Etag)
    requires Keyed(k) && e in k.etags
    ensures Keyed(k.(etags := k.etags - {e})) && |k.etags - {e}| < |k.etags|
    ensures forall p :: One(Has(k, p)) == One(Has(k.(etags := k.etags - {e}), p)) + One(p == k.etags[e])
  {
    assert k.etags == (k.etags - {e})[e := k.etags[e]];
  }

  // ----- conservation

  lemma {:induction false} LoadKeyed(existing: seq<PolicyInfo>)
    ensures Keyed(Load(existing))
  {
    if existing == [] {
    } else {
      LoadKeyed(existing[..|existing| - 1]);
    }
  }

  lemma TakeConserves(k: Known, c: PolicyInfo, p: PolicyInfo)
    requires Keyed(k)
    ensures var (d, k') := Take(k, c);
      Keyed(k') && One(Has(k, p)) == One(Has(k', p)) + One(Hit(Handles, d, p))
  {
    if c.id.Some? && c.id.value in k.ids {
      RemoveId(k, c.id.value);
    } else if CalculateEtag(c) in k.etags {
      RemoveEtag(k, CalculateEtag(c));
    }
  }

  lemma {:induction false} TakeAllKeyed(k: Known, compare: seq<PolicyInfo>)
    requires Keyed(k)
    ensures Keyed(TakeAll(k, compare).1)
  {
    if compare == [] {
    } else {
      TakeAllKeyed(k, compare[..|compare| - 1]);
      var c := compare[|compare| - 1];
      TakeConserves(TakeAll(k, compare[..|compare| - 1]).1, c, c);
    }
  }

  lemma {:induction false} TakeAllConserves(k: Known, compare: seq<PolicyInfo>, p: PolicyInfo)
    requires Keyed(k)
    ensures var (difs, left) := TakeAll(k, compare);
      Count(Handles, difs, p) + One(Has(left, p)) == One(Has(k, p))
  {
    if compare == [] {
    } else {
      var init := compare[..|compare| - 1];
      TakeAllConserves(k, init, p);
      TakeAllKeyed(k, init);
      var (difs, k1) := TakeAll(k, init);
      TakeConserves(k1, compare[|compare| - 1], p);
      var d := Take(k1, compare[|compare| - 1]).0;
      assert (difs + [d])[..|difs|] == difs;
    }
  }

  lemma EntryOne(k: Known, c: PolicyInfo)
    requires Keyed(k)
    ensures EntryFor(Take(k, c).0, c)
  {
    if !(c.id.Some? && c.id.value in k.ids) && CalculateEtag(c) in k.etags {
      CompareEqualExact(c, k.etags[CalculateEtag(c)]);
    }
  }

  /** Each wanted policy gives one entry, in order; the entry says NEW, MATCHED only of a policy
      that compares EQUAL, and UPDATE only of one with the same id that does not. */
  lemma {:induction false} EntryPerWanted(k: Known, compare: seq<PolicyInfo>)
    requires Keyed(k)
    ensures |TakeAll(k, compare).0| == |compare|
    ensures forall i :: 0 <= i < |compare| ==> EntryFor(TakeAll(k, compare).0[i], compare[i])
  {
    if compare == [] {
    } else {
      var init := compare[..|compare| - 1];
      EntryPerWanted(k, init);
      TakeAllKeyed(k, init);
      EntryOne(TakeAll(k, init).1, compare[|compare| - 1]);
      forall i | 0 <= i < |compare| ensures EntryFor(TakeAll(k, compare).0[i], compare[i]) {
        if i < |init| {
          assert compare[i] == init[i] && TakeAll(k, compare).0[i] == TakeAll(k, init).0[i];
        }
      }
    }
  }

  predicate EntryFor(d: Dif, c: PolicyInfo) {
    match d
    case Matched(p, w) => w == c && CompareEqual(c, p)
    case Update(p, w, t) => w == c && p.id == c.id && c.id.Some? && !CompareEqual(c, p) && t == Compare(c, p)
    case New(w) => w == c
    case Delete(_) => false
  }

  /** No two existing policies are filed under one key. */
  predicate DistinctKeys(existing: seq<PolicyInfo>) {
    forall i, j :: 0 <= i < j < |existing| ==> !SameKey(existing[i], existing[j])
  }

  predicate SameKey(p: PolicyInfo, q: PolicyInfo) {
    p.id == q.id && (p.id.None? ==> CalculateEtag(p) == CalculateEtag(q))
  }

  function Occurrences(ps: seq<PolicyInfo>, p: PolicyInfo): nat {
    if ps == [] then 0 else Occurrences(ps[..|ps| - 1], p) + One(ps[|ps| - 1] == p)
  }

  lemma {:induction false} OccursPositive(ps: seq<PolicyInfo>, p: PolicyInfo)
    ensures Occurrences(ps, p) > 0 <==> p in ps
  {
    if ps == [] {
    } else {
      var init := ps[..|ps| - 1];
      OccursPositive(init, p);
      assert ps == init + [ps[|ps| - 1]];
    }
  }

  /** What the maps hold: under each key the last policy that has it. */
  lemma {:induction false} LoadHas(existing: seq<PolicyInfo>, p: PolicyInfo)
    ensures Has(Load(existing), p) ==> p in existing
    ensures p in existing ==> exists q :: q in existing && SameKey(p, q) && Has(Load(existing), q)
    ensures forall q :: Has(Load(existing), p) && Has(Load(existing), q) && SameKey(p, q) ==> p == q
  {
    if existing == [] {
    } else {
      var init, last := existing[..|existing| - 1], existing[|existing| - 1];
      LoadHas(init, p);
      assert existing == init + [last];
      assert Has(Load(existing), last);
      if p in existing && !SameKey(p, last) {
        assert p in init;
        var q :| q in init && SameKey(p, q) && Has(Load(init), q);
        assert Has(Load(existing), q) && q in existing;
      } else if p in existing {
        assert last in existing && SameKey(p, last) && Has(Load(existing), last);
      }
    }
  }

  lemma {:induction false} DistinctLoaded(existing: seq<PolicyInfo>, p: PolicyInfo)
    requires DistinctKeys(existing)
    ensures Occurrences(existing, p) == One(Has(Load(existing), p))
  {
    if existing == [] {
    } else {
      var init, last := existing[..|existing| - 1], existing[|existing| - 1];
      assert DistinctKeys(init) by {
        forall i, j | 0 <= i < j < |init| ensures !SameKey(init[i], init[j]) {
          assert init[i] == existing[i] && init[j] == existing[j];
        }
      }
      DistinctLoaded(init, p);
      LoadHas(init, p);
      if Has(Load(init), p) {
        var i :| 0 <= i < |init| && init[i] == p;
        assert !SameKey(existing[i], existing[|existing| - 1]);
      }
    }
  }

  lemma {:induction false} TwiceOccurs(ps: seq<PolicyInfo>, i: nat, j: nat)
    requires i < j < |ps| && ps[i] == ps[j]
    ensures Occurrences(ps, ps[i]) >= 2
  {
    var init := ps[..|ps| - 1];
    if j == |ps| - 1 {
      assert init[i] == ps[i];
      OccursPositive(init, ps[i]);
    } else {
      TwiceOccurs(init, i, j);
    }
  }

  /** Main result: in every output each existing policy is handled by exactly one MATCHED, UPDATE
      or DELETE entry if and only if no two existing policies share a key. */
  lemma ConservationExact(existing: seq<PolicyInfo>, compare: seq<PolicyInfo>, res: seq<Dif>)
    requires Outcome(res, existing, compare, false)
    ensures (forall p :: Count(Handles, res, p) == Occurrences(existing, p)) <==> DistinctKeys(existing)
  {
    var (main, left) := TakeAll(Load(existing), compare);
    LoadKeyed(existing);
    ShownAll(main);
    var dels := res[|main|..];
    assert res == main + dels;
    forall p ensures Count(Handles, res, p) == One(Has(Load(existing), p)) {
      TakeAllConserves(Load(existing), compare, p);
      CountCat(Handles, main, dels, p);
    }
    if DistinctKeys(existing) {
      forall p ensures Occurrences(existing, p) == One(Has(Load(existing), p)) {
        DistinctLoaded(existing, p);
      }
    } else {
      var i, j :| 0 <= i < j < |existing| && SameKey(existing[i], existing[j]);
      var p, q := existing[i], existing[j];
      if p == q {
        TwiceOccurs(existing, i, j);
        assert Count(Handles, res, p) <= 1;
      } else {
        OccursPositive(existing, p);
        OccursPositive(existing, q);
        LoadHas(existing, p);
        assert Count(Handles, res, p) != Occurrences(existing, p)
          || Count(Handles, res, q) != Occurrences(existing, q);
      }
    }
  }

  // ----- which entry, without the maps

  /** The last existing policy with its key: the one that counts when keys repeat. */
  predicate Filed(existing: seq<PolicyInfo>, p: PolicyInfo) {
    exists j :: 0 <= j < |existing| && existing[j] == p && NotAfter(existing, j, p)
  }

  predicate NotAfter(existing: seq<PolicyInfo>, j: nat, p: PolicyInfo) {
    forall i :: j < i < |existing| ==> !SameKey(existing[i], p)
  }

  predicate Handled(difs: seq<Dif>, p: PolicyInfo) {
    exists i :: 0 <= i < |difs| && Hit(Handles, difs[i], p)
  }

  /** Filed, and no earlier entry has taken it. */
  predicate Available(existing: seq<PolicyInfo>, earlier: seq<Dif>, p: PolicyInfo) {
    Filed(existing, p) && !Handled(earlier, p)
  }

  predicate ById(p: PolicyInfo, c: PolicyInfo) {
    c.id.Some? && p.id == c.id
  }

  predicate ByEtag(p: PolicyInfo, c: PolicyInfo) {
    p.id == None && CalculateEtag(p) == CalculateEtag(c)
  }

  ghost predicate NoneById(existing: seq<PolicyInfo>, earlier: seq<Dif>, c: PolicyInfo) {
    forall p :: Available(existing, earlier, p) ==> !ById(p, c)
  }

  lemma {:induction false} LoadFiled(existing: seq<PolicyInfo>, p: PolicyInfo)
    ensures Has(Load(existing), p) <==> Filed(existing, p)
  {
    if existing == [] {
    } else {
      var n := |existing| - 1;
      var init, last := existing[..n], existing[n];
      LoadFiled(init, p);
      LoadedNext(Load(init), last, p);
      FiledNext(init, last, p);
      assert existing == init + [last];
    }
  }

  lemma LoadedNext(k: Known, last: PolicyInfo, p: PolicyInfo)
    ensures Has(LoadOne(k, last), p) <==> p == last || (Has(k, p) && !SameKey(last, p))
  {}

  lemma FiledNext(init: seq<PolicyInfo>, last: PolicyInfo, p: PolicyInfo)
    ensures Filed(init + [last], p) <==> p == last || (Filed(init, p) && !SameKey(last, p))
  {
    var ps, n := init + [last], |init|;
    if p == last {
      assert ps[n] == p && NotAfter(ps, n, p);
    }
    if j :| 0 <= j < |ps| && ps[j] == p && NotAfter(ps, j, p) {
      if j < n {
        assert !SameKey(ps[n], p);
        assert forall i :: j < i < n ==> ps[i] == init[i];
        assert init[j] == p && NotAfter(init, j, p);
      }
    }
    if j :| 0 <= j < n && init[j] == p && NotAfter(init, j, p) && !SameKey(last, p) {
      assert forall i :: j < i < n ==> ps[i] == init[i];
      assert ps[j] == p && NotAfter(ps, j, p);
    }
  }

  lemma {:induction false} HandledCounts(difs: seq<Dif>, p: PolicyInfo)
    ensures Handled(difs, p) <==> Count(Handles, difs, p) > 0
  {
    if difs == [] {
    } else {
      var n := |difs| - 1;
      HandledCounts(difs[..n], p);
      if i :| 0 <= i < |difs| && Hit(Handles, difs[i], p) && i < n {
        assert difs[..n][i] == difs[i];
      }
      if i :| 0 <= i < n && Hit(Handles, difs[..n][i], p) {
        assert difs[i] == difs[..n][i];
      }
    }
  }

  /** What is still in the maps is what is available. */
  lemma AvailableExact(existing: seq<PolicyInfo>, compare: seq<PolicyInfo>, p: PolicyInfo)
    ensures Has(TakeAll(Load(existing), compare).1, p)
       <==> Available(existing, TakeAll(Load(existing), compare).0, p)
  {
    LoadKeyed(existing);
    LoadFiled(existing, p);
    TakeAllConserves(Load(existing), compare, p);
    HandledCounts(TakeAll(Load(existing), compare).0, p);
  }

  lemma TakeAllStep(k: Known, compare: seq<PolicyInfo>)
    requires compare != []
    ensures var n := |compare| - 1;
      && |TakeAll(k, compare).0| == |compare|
      && TakeAll(k, compare).0[..n] == TakeAll(k, compare[..n]).0
      && TakeAll(k, compare).0[n] == Take(TakeAll(k, compare[..n]).1, compare[n]).0
  {
    TakeAllLength(k, compare[..|compare| - 1]);
  }

  lemma {:induction false} TakeAllPrefix(k: Known, compare: seq<PolicyInfo>, i: nat)
    requires i < |compare|
    ensures |TakeAll(k, compare).0| == |compare|
    ensures TakeAll(k, compare).0[..i] == TakeAll(k, compare[..i]).0
    ensures TakeAll(k, compare).0[i] == Take(TakeAll(k, compare[..i]).1, compare[i]).0
  {
    var n := |compare| - 1;
    TakeAllStep(k, compare);
    if i < n {
      var init := compare[..n];
      TakeAllPrefix(k, init, i);
      assert init[..i] == compare[..i];
      assert TakeAll(k, compare).0[i] == TakeAll(k, compare).0[..n][i];
      assert TakeAll(k, compare).0[..i] == TakeAll(k, compare).0[..n][..i];
    }
  }

  lemma {:induction false} TakeAllLength(k: Known, compare: seq<PolicyInfo>)
    ensures |TakeAll(k, compare).0| == |compare|
  {
    if compare == [] {
    } else {
      TakeAllLength(k, compare[..|compare| - 1]);
    }
  }

  /** One entry, given which policies are still filed. */
  lemma TakeExact(k: Known, c: PolicyInfo)
    requires Keyed(k)
    ensures forall p :: Has(k, p) && ById(p, c) ==>
      Take(k, c).0 == if CompareEqual(c, p) then Matched(p, c) else Update(p, c, Compare(c, p))
    ensures (forall p :: Has(k, p) ==> !ById(p, c)) ==>
      forall p :: Has(k, p) && ByEtag(p, c) ==> Take(k, c).0 == Matched(p, c)
    ensures Take(k, c).0.New? <==> forall p :: Has(k, p) ==> !ById(p, c) && !ByEtag(p, c)
  {
    if c.id.Some? && c.id.value in k.ids {
      assert Has(k, k.ids[c.id.value]);
    } else if CalculateEtag(c) in k.etags {
      assert Has(k, k.etags[CalculateEtag(c)]);
    }
  }

  /** Main result: which entry each wanted policy gets. With a policy of its id available, MATCHED or
      UPDATE of that one, as Compare says; otherwise, with one available that has no id and its etag,
      MATCHED of that one; and NEW exactly when neither is available. */
  lemma EntryExactly(existing: seq<PolicyInfo>, compare: seq<PolicyInfo>, i: nat)
    requires i < |compare|
    ensures var (main, c) := (TakeAll(Load(existing), compare).0, compare[i]);
      && |main| == |compare|
      && (forall p :: Available(existing, main[..i], p) && ById(p, c) ==>
            main[i] == if CompareEqual(c, p) then Matched(p, c) else Update(p, c, Compare(c, p)))
      && (NoneById(existing, main[..i], c) ==>
            forall p :: Available(existing, main[..i], p) && ByEtag(p, c) ==> main[i] == Matched(p, c))
      && (main[i].New? <==> forall p :: Available(existing, main[..i], p) ==> !ById(p, c) && !ByEtag(p, c))
  {
    var k := Load(existing);
    var k1 := TakeAll(k, compare[..i]).1;
    LoadKeyed(existing);
    TakeAllKeyed(k, compare[..i]);
    TakeAllPrefix(k, compare, i);
    TakeExact(k1, compare[i]);
    forall p ensures Has(k1, p) <==> Available(existing, TakeAll(k, compare).0[..i], p) {
      AvailableExact(existing, compare[..i], p);
    }
  }

  // ----- nothing to do

  function Size(k: Known): nat {
    |k.ids| + |k.etags|
  }

  /** Each policy has a place of its own in the maps exactly when the keys are distinct. */
  lemma {:induction false} LoadSize(existing: seq<PolicyInfo>)
    ensures Size(Load(existing)) <= |existing|
    ensures Size(Load(existing)) == |existing| <==> DistinctKeys(existing)
  {
    if existing == [] {
    } else {
      var n := |existing| - 1;
      var init, last := existing[..n], existing[n];
      LoadSize(init);
      LoadKeyed(init);
      LoadOneSize(Load(init), last);
      DistinctNext(init, last);
      assert existing == init + [last];
    }
  }

  lemma MapGrows<K, V>(m: map<K, V>, k: K, v: V)
    ensures |m[k := v]| == |m| + One(k !in m)
  {
    assert m[k := v].Keys == m.Keys + {k};
  }

  lemma MapShrinks<K, V>(m: map<K, V>, k: K)
    requires k in m
    ensures |m - {k}| + 1 == |m|
  {
    assert m.Keys == (m - {k}).Keys + {k};
  }

  lemma LoadOneSize(k: Known, last: PolicyInfo)
    requires Keyed(k)
    ensures Size(LoadOne(k, last)) == Size(k) + One(forall p :: Has(k, p) ==> !SameKey(p, last))
  {
    KeyTaken(k, last);
    match last.id
    case Some(id) => MapGrows(k.ids, id, last);
    case None => MapGrows(k.etags, CalculateEtag(last), last);
  }

  /** A policy's place is taken exactly when one with its key is known. */
  lemma KeyTaken(k: Known, last: PolicyInfo)
    requires Keyed(k)
    ensures (if last.id.Some? then last.id.value in k.ids else CalculateEtag(last) in k.etags)
       <==> exists p :: Has(k, p) && SameKey(p, last)
  {
    if last.id.Some? && last.id.value in k.ids {
      assert Has(k, k.ids[last.id.value]);
    }
    if last.id.None? && CalculateEtag(last) in k.etags {
      assert Has(k, k.etags[CalculateEtag(last)]);
    }
  }

  lemma DistinctNext(init: seq<PolicyInfo>, last: PolicyInfo)
    ensures DistinctKeys(init + [last]) <==> DistinctKeys(init) && forall p :: Has(Load(init), p) ==> !SameKey(p, last)
  {
    var ps, n := init + [last], |init|;
    if DistinctKeys(ps) {
      assert forall i :: 0 <= i < n ==> ps[i] == init[i] && !SameKey(ps[i], ps[n]);
      forall p | Has(Load(init), p) ensures !SameKey(p, last) {
        LoadHas(init, p);
        var i :| 0 <= i < n && init[i] == p;
        assert !SameKey(ps[i], ps[n]);
      }
    } else {
      var i, j :| 0 <= i < j < |ps| && SameKey(ps[i], ps[j]);
      if j == n {
        LoadHas(init, init[i]);
        var q :| q in init && SameKey(init[i], q) && Has(Load(init), q);
        assert SameKey(q, last);
      } else {
        assert SameKey(init[i], init[j]);
      }
    }
  }

  predicate NoneNew(difs: seq<Dif>) {
    forall i :: 0 <= i < |difs| ==> !difs[i].New?
  }

  lemma {:induction false} TakenSize(k: Known, compare: seq<PolicyInfo>)
    requires Keyed(k) && NoneNew(TakeAll(k, compare).0)
    ensures Size(TakeAll(k, compare).1) + |compare| == Size(k)
  {
    if compare == [] {
    } else {
      var n := |compare| - 1;
      var init, main := compare[..n], TakeAll(k, compare).0;
      TakeAllStep(k, compare);
      assert main == TakeAll(k, init).0 + [main[n]];
      NoneNewSplit(TakeAll(k, init).0, main[n]);
      TakenSize(k, init);
      TakeOneSize(TakeAll(k, init).1, compare[n]);
    }
  }

  lemma NoneNewSplit(difs: seq<Dif>, d: Dif)
    ensures NoneNew(difs + [d]) <==> NoneNew(difs) && !d.New?
  {
    assert forall i :: 0 <= i < |difs| ==> (difs + [d])[i] == difs[i];
    assert (difs + [d])[|difs|] == d;
  }

  lemma TakeOneSize(k: Known, c: PolicyInfo)
    requires !Take(k, c).0.New?
    ensures Size(Take(k, c).1) + 1 == Size(k)
  {
    if c.id.Some? && c.id.value in k.ids {
      MapShrinks(k.ids, c.id.value);
    } else {
      MapShrinks(k.etags, CalculateEtag(c));
    }
  }

  /** Distinct policies compared with themselves: each is matched with itself. */
  lemma {:induction false} SelfMatched(existing: seq<PolicyInfo>, n: nat)
    requires DistinctKeys(existing) && n <= |existing|
    ensures var (main, left) := TakeAll(Load(existing), existing[..n]);
      && |main| == n
      && (forall i :: 0 <= i < n ==> main[i] == Matched(existing[i], existing[i]))
      && (forall i :: n <= i < |existing| ==> Has(left, existing[i]))
  {
    var k := Load(existing);
    if n == 0 {
      forall i | 0 <= i < |existing| ensures Has(k, existing[i]) {
        SelfFiled(existing, i);
      }
    } else {
      SelfMatched(existing, n - 1);
      assert existing[..n][..n - 1] == existing[..n - 1];
      LoadKeyed(existing);
      TakeAllKeyed(k, existing[..n - 1]);
      SelfStep(TakeAll(k, existing[..n - 1]).1, existing, n - 1);
    }
  }

  lemma SelfFiled(existing: seq<PolicyInfo>, i: nat)
    requires DistinctKeys(existing) && i < |existing|
    ensures Has(Load(existing), existing[i])
  {
    LoadFiled(existing, existing[i]);
    forall j | i < j < |existing| ensures !SameKey(existing[j], existing[i]) {
      assert !SameKey(existing[i], existing[j]);
    }
    assert NotAfter(existing, i, existing[i]);
  }

  lemma SelfStep(k: Known, existing: seq<PolicyInfo>, n: nat)
    requires DistinctKeys(existing) && n < |existing| && Keyed(k)
    requires forall i :: n <= i < |existing| ==> Has(k, existing[i])
    ensures Take(k, existing[n]).0 == Matched(existing[n], existing[n])
    ensures forall i :: n < i < |existing| ==> Has(Take(k, existing[n]).1, existing[i])
  {
    SelfTaken(k, existing[n]);
    forall i | n < i < |existing| ensures Has(Take(k, existing[n]).1, existing[i]) {
      assert !SameKey(existing[n], existing[i]);
    }
  }

  lemma SelfTaken(k: Known, c: PolicyInfo)
    requires Keyed(k) && Has(k, c)
    ensures Take(k, c).0 == Matched(c, c)
    ensures forall p :: Has(k, p) && !SameKey(c, p) ==> Has(Take(k, c).1, p)
  {
    CompareEqualExact(c, c);
  }

  lemma {:induction false} ShownMatched(difs: seq<Dif>)
    ensures Shown(difs, true) == [] <==> forall i :: 0 <= i < |difs| ==> difs[i].Matched?
  {
    if difs == [] {
    } else {
      var n := |difs| - 1;
      ShownMatched(difs[..n]);
      assert forall i :: 0 <= i < n ==> difs[..n][i] == difs[i];
    }
  }

  lemma NoDeletes(dels: seq<Dif>, k: Known)
    requires AreDeletes(dels, k) && Keyed(k)
    ensures dels == [] <==> Size(k) == 0
  {
    if dels != [] {
      var p := dels[0].exist;
      assert Hit(Handles, dels[0], p);
      HandledCounts(dels, p);
      assert Has(k, p);
    } else if Size(k) != 0 {
      if |k.ids| > 0 {
        var id :| id in k.ids;
        assert Has(k, k.ids[id]);
      } else {
        var e :| e in k.etags;
        assert Has(k, k.etags[e]);
      }
    }
  }

  lemma SelfEmpty(existing: seq<PolicyInfo>)
    requires DistinctKeys(existing)
    ensures Shown(TakeAll(Load(existing), existing).0, true) == [] && Size(TakeAll(Load(existing), existing).1) == 0
  {
    var k := Load(existing);
    LoadKeyed(existing);
    LoadSize(existing);
    assert existing[..|existing|] == existing;
    SelfMatched(existing, |existing|);
    ShownMatched(TakeAll(k, existing).0);
    TakenSize(k, existing);
  }

  lemma SelfDistinct(existing: seq<PolicyInfo>)
    requires Shown(TakeAll(Load(existing), existing).0, true) == []
    ensures DistinctKeys(existing)
  {
    var k := Load(existing);
    LoadKeyed(existing);
    LoadSize(existing);
    ShownMatched(TakeAll(k, existing).0);
    TakenSize(k, existing);
  }

  /** Main result: policies compared with themselves give no difference exactly when their keys are
      distinct. */
  lemma NothingToDo(existing: seq<PolicyInfo>, res: seq<Dif>)
    requires Outcome(res, existing, existing, true)
    ensures res == [] <==> DistinctKeys(existing)
  {
    var (main, left) := TakeAll(Load(existing), existing);
    var shown := Shown(main, true);
    LoadKeyed(existing);
    TakeAllKeyed(Load(existing), existing);
    NoDeletes(res[|shown|..], left);
    assert res == shown + res[|shown|..];
    if DistinctKeys(existing) {
      SelfEmpty(existing);
    } else if res == [] {
      SelfDistinct(existing);
    }
  }

  // ----- replay

  /** What applying the entries leaves, policy by policy. */
  function After(existing: seq<PolicyInfo>, entries: seq<Dif>, p: PolicyInfo): int {
    Occurrences(existing, p) - Count(Removes, entries, p) + Count(Adds, entries, p)
  }

  /** The policy that stands for the wanted one after the entry is applied. */
  function Left(d: Dif): PolicyInfo {
    match d
    case Matched(p, _) => p
    case Update(_, c, _) => c
    case New(c) => c
    case Delete(p) => p
  }

  function LeftAll(difs: seq<Dif>): seq<PolicyInfo> {
    seq(|difs|, i requires 0 <= i < |difs| => Left(difs[i]))
  }

  lemma {:induction false} LeavesCounts(difs: seq<Dif>, p: PolicyInfo)
    requires forall i :: 0 <= i < |difs| ==> !difs[i].Delete?
    ensures Count(Leaves, difs, p) == Occurrences(LeftAll(difs), p)
    ensures Count(Leaves, difs, p) == Count(Handles, difs, p) - Count(Removes, difs, p) + Count(Adds, difs, p)
  {
    if difs == [] {
    } else {
      var init := difs[..|difs| - 1];
      LeavesCounts(init, p);
      assert LeftAll(difs)[..|difs| - 1] == LeftAll(init);
    }
  }

  lemma {:induction false} DeletesCount(dels: seq<Dif>, p: PolicyInfo)
    requires forall i :: 0 <= i < |dels| ==> dels[i].Delete?
    ensures Count(Removes, dels, p) == Count(Handles, dels, p) && Count(Adds, dels, p) == 0
  {
    if dels == [] {
    } else {
      DeletesCount(dels[..|dels| - 1], p);
    }
  }

  lemma {:induction false} ShownCounts(difs: seq<Dif>, f: Effect, p: PolicyInfo)
    requires f == Removes || f == Adds
    ensures Count(f, Shown(difs, true), p) == Count(f, difs, p)
  {
    if difs == [] {
    } else {
      var init, d := difs[..|difs| - 1], difs[|difs| - 1];
      ShownCounts(init, f, p);
      var t := Shown(init, true);
      if d.Matched? {
        assert t + [] == t;
      } else {
        assert (t + [d])[..|t|] == t;
      }
    }
  }

  lemma {:induction false} ShownAll(difs: seq<Dif>)
    ensures Shown(difs, false) == difs
  {
    if difs == [] {
    } else {
      ShownAll(difs[..|difs| - 1]);
    }
  }

  lemma ReplayCount(existing: seq<PolicyInfo>, compare: seq<PolicyInfo>, diffsOnly: bool, dels: seq<Dif>, p: PolicyInfo)
    requires DistinctKeys(existing) && AreDeletes(dels, TakeAll(Load(existing), compare).1)
    requires forall i :: 0 <= i < |TakeAll(Load(existing), compare).0| ==>
      !TakeAll(Load(existing), compare).0[i].Delete?
    ensures var main := TakeAll(Load(existing), compare).0;
      && After(existing, Shown(main, diffsOnly) + dels, p) == Occurrences(LeftAll(main), p)
      && Count(Removes, Shown(main, diffsOnly) + dels, p) <= Occurrences(existing, p)
  {
    var k := Load(existing);
    var main := TakeAll(k, compare).0;
    LoadKeyed(existing);
    TakeAllConserves(k, compare, p);
    DistinctLoaded(existing, p);
    LeavesCounts(main, p);
    DeletesCount(dels, p);
    ShownCounts(main, Removes, p);
    ShownCounts(main, Adds, p);
    ShownAll(main);
    CountCat(Removes, Shown(main, diffsOnly), dels, p);
    CountCat(Adds, Shown(main, diffsOnly), dels, p);
    RemovesBound(main, p);
  }

  /** Main result: applying the entries, full or differences only, to existing policies with
      distinct keys leaves one policy for each wanted one, comparing EQUAL to it, and no other. */
  lemma Replay(existing: seq<PolicyInfo>, compare: seq<PolicyInfo>, diffsOnly: bool, res: seq<Dif>)
    requires DistinctKeys(existing) && Outcome(res, existing, compare, diffsOnly)
    ensures var left := LeftAll(TakeAll(Load(existing), compare).0);
      && |left| == |compare|
      && (forall i :: 0 <= i < |compare| ==> CompareEqual(compare[i], left[i]))
      && (forall p :: After(existing, res, p) == Occurrences(left, p))
      && (forall p :: Count(Removes, res, p) <= Occurrences(existing, p))
  {
    var k := Load(existing);
    var main := TakeAll(k, compare).0;
    var dels := res[|Shown(main, diffsOnly)|..];
    assert res == Shown(main, diffsOnly) + dels;
    LoadKeyed(existing);
    EntryPerWanted(k, compare);
    forall i | 0 <= i < |main| ensures !main[i].Delete? && CompareEqual(compare[i], Left(main[i])) {
      assert EntryFor(main[i], compare[i]);
      CompareEqualExact(compare[i], compare[i]);
    }
    forall p {
      ReplayCount(existing, compare, diffsOnly, dels, p);
    }
  }

  lemma {:induction false} RemovesBound(difs: seq<Dif>, p: PolicyInfo)
    ensures Count(Removes, difs, p) <= Count(Handles, difs, p)
  {
    if difs == [] {
    } else {
      RemovesBound(difs[..|difs| - 1], p);
    }
  }
}
