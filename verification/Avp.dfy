/** The Amazon Verified Permissions provider: a policy list is reconciled with a mutable store and
    the differences are replayed against it, call by call. Any client call may fail. */
module Avp {
  import opened Collections
  import opened Idql
  import opened Policy

  datatype Stored = Stored(policy: PolicyInfo, template: bool)

  type Store = map<string, Stored>

  /** `source` is the source data: None when nil, else whether it marks a template. */
  datatype Wanted = Wanted(policy: PolicyInfo, avp: bool, source: Option<bool>)

  datatype Dif =
    | Ignore(w: Wanted)
    | Matched(id: string, w: Wanted)
    | New(w: Wanted)
    | Update(id: string, w: Wanted, difTypes: seq<Difference>)
    | Delete(id: string, stored: Stored)

  predicate Contains(s: string, t: string) {
    t <= s || (s != "" && Contains(s[1..], t))
  }

  predicate IsTemplate(w: Wanted) {
    match w.source
    case None => "?principal" in w.policy.subjects || Contains(w.policy.obj, "?resource")
    case Some(template) => template
  }

  /** `t` stands in `s` at `i`. */
  predicate StandsAt(s: string, t: string, i: nat) {
    i + |t| <= |s| && s[i..i + |t|] == t
  }

  lemma StandsLater(s: string, t: string, i: nat)
    requires s != ""
    ensures StandsAt(s, t, i + 1) <==> StandsAt(s[1..], t, i)
  {
    if i + 1 + |t| <= |s| {
      assert s[i + 1..i + 1 + |t|] == s[1..][i..i + |t|];
    }
  }

  lemma {:induction false} ContainsExact(s: string, t: string)
    ensures Contains(s, t) <==> exists i :: StandsAt(s, t, i)
  {
    assert t <= s <==> StandsAt(s, t, 0);
    if s != "" && !(t <= s) {
      ContainsExact(s[1..], t);
      if i: nat :| StandsAt(s[1..], t, i) {
        StandsLater(s, t, i);
      }
      if i: nat :| StandsAt(s, t, i) {
        StandsLater(s, t, i - 1);
      }
    }
  }

  /** A request with source data is a template when that says so; one without is a template when a
      subject is the principal's slot or the resource's slot stands anywhere in the object. */
  lemma TemplateExactly(w: Wanted)
    ensures w.source == None ==>
      (IsTemplate(w) <==>
        || (exists i :: 0 <= i < |w.policy.subjects| && w.policy.subjects[i] == "?principal")
        || (exists i :: StandsAt(w.policy.obj, "?resource", i)))
    ensures w.source.Some? ==> (IsTemplate(w) <==> w.source == Some(true))
  {
    ContainsExact(w.policy.obj, "?resource");
  }

  /** The deletion request; None for a template, which the store refuses. */
  function PrepareDelete(id: string, template: bool): Option<string> {
    if template then None else Some(id)
  }

  // ----- the store

  lemma {:induction false} LongerThanAll(ids: set<string>) returns (n: nat)
    ensures forall x :: x in ids ==> |x| < n
  {
    if ids == {} {
      n := 0;
    } else {
      var x :| x in ids;
      var k := LongerThanAll(ids - {x});
      n := if |x| < k then k else |x| + 1;
    }
  }

  datatype Call =
    | CreateCall(policy: PolicyInfo)
    | DeleteCall(request: Option<string>)
    | UpdateCall(id: string, policy: PolicyInfo)

  datatype Outcome = Outcome(call: Call, ok: bool)

  class Client {
    var store: Store
    ghost var calls: seq<Outcome>  // every call made, in order

    constructor (s: Store)
      ensures store == s && calls == []
    {
      store := s;
      calls := [];
    }

    /** Stores a static policy under a new identifier, or fails. */
    method CreatePolicy(p: PolicyInfo, fails: bool) returns (id: Option<string>)
      modifies this
      ensures id.None? <==> fails
      ensures id.None? ==> store == old(store)
      ensures id.Some? ==> id.value !in old(store) && store == old(store)[id.value := Stored(p, false)]
      ensures calls == old(calls) + [Outcome(CreateCall(p), id.Some?)]
    {
      calls := calls + [Outcome(CreateCall(p), !fails)];
      if fails {
        return None;
      }
      ghost var n := LongerThanAll(store.Keys);
      assert seq(n, i => 'x') !in store;
      var unused :| unused !in store;
      store := store[unused := Stored(p, false)];
      id := Some(unused);
    }

    /** Removes a static policy, or fails; templates and missing requests are refused. */
    method DeletePolicy(id: Option<string>, fails: bool) returns (ok: bool)
      modifies this
      ensures ok <==> !fails && id.Some? && id.value in old(store) && !old(store)[id.value].template
      ensures store == if ok then old(store) - {id.value} else old(store)
      ensures calls == old(calls) + [Outcome(DeleteCall(id), ok)]
    {
      ok := !fails && id.Some? && id.value in store && !store[id.value].template;
      calls := calls + [Outcome(DeleteCall(id), ok)];
      if ok {
        store := store - {id.value};
      }
    }

    /** Replaces a static policy in place, or fails. */
    method UpdatePolicy(id: string, p: PolicyInfo, fails: bool) returns (ok: bool)
      modifies this
      ensures ok <==> !fails && id in old(store) && !old(store)[id].template
      ensures store == if ok then old(store)[id := Stored(p, false)] else old(store)
      ensures calls == old(calls) + [Outcome(UpdateCall(id, p), ok)]
    {
      ok := !fails && id in store && !store[id].template;
      calls := calls + [Outcome(UpdateCall(id, p), ok)];
      if ok {
        store := store[id := Stored(p, false)];
      }
    }
  }

  // ----- reconciling

  /** A stored policy and the wanted one it stands for. */
  datatype Pair = Pair(id: string, w: Wanted)

  /** The differences so far, the matches left out of them, and the stored policies not yet named. */
  datatype Planned = Planned(difs: seq<Dif>, kept: seq<Pair>, rest: Store)

  predicate Identified(ws: seq<Wanted>) {
    forall i :: 0 <= i < |ws| && ws[i].avp ==> ws[i].policy.id.Some?
  }

  function Take(p: Planned, w: Wanted): Planned
    requires w.avp ==> w.policy.id.Some?
  {
    if w.avp && IsTemplate(w) then
      p.(difs := p.difs + [Ignore(w)], rest := p.rest - {w.policy.id.value})
    else if w.avp && w.policy.id.value in p.rest then
      var id := w.policy.id.value;
      var d := Compare(w.policy, p.rest[id].policy);
      if EQUAL in d then p.(kept := p.kept + [Pair(id, w)], rest := p.rest - {id})
      else p.(difs := p.difs + [Update(id, w, d)], rest := p.rest - {id})
    else if IsTemplate(w) then p
    else p.(difs := p.difs + [New(w)])
  }

  function TakeAll(s: Store, ws: seq<Wanted>): Planned
    requires Identified(ws)
  {
    if ws == [] then Planned([], [], s)
    else Take(TakeAll(s, ws[..|ws| - 1]), ws[|ws| - 1])
  }

  /** One deletion for each stored policy left over, in any order. */
  ghost predicate AreDeletes(dels: seq<Dif>, rest: Store) {
    && (forall i :: 0 <= i < |dels| ==> dels[i].Delete? && dels[i].id in rest && dels[i].stored == rest[dels[i].id])
    && (forall i, j :: 0 <= i < j < |dels| ==> dels[i].id != dels[j].id)
    && (forall id :: id in rest ==> exists i :: 0 <= i < |dels| && dels[i].id == id)
  }

  /** The entries with the matches among them, as they are listed without diffsOnly. */
  function Listed(s: Store, ws: seq<Wanted>): seq<Dif>
    requires Identified(ws)
  {
    if ws == [] then []
    else
      var p, w := TakeAll(s, ws[..|ws| - 1]), ws[|ws| - 1];
      Listed(s, ws[..|ws| - 1]) + Entries(p, w)
  }

  function Entries(p: Planned, w: Wanted): seq<Dif>
    requires w.avp ==> w.policy.id.Some?
  {
    if w.avp && IsTemplate(w) then [Ignore(w)]
    else if w.avp && w.policy.id.value in p.rest then
      var id := w.policy.id.value;
      var d := Compare(w.policy, p.rest[id].policy);
      if EQUAL in d then [Matched(id, w)] else [Update(id, w, d)]
    else if IsTemplate(w) then []
    else [New(w)]
  }

  function Differences(difs: seq<Dif>): seq<Dif> {
    if difs == [] then []
    else Differences(difs[..|difs| - 1]) + (if difs[|difs| - 1].Matched? then [] else [difs[|difs| - 1]])
  }

  lemma {:induction false} DifferencesCat(a: seq<Dif>, b: seq<Dif>)
    ensures Differences(a + b) == Differences(a) + Differences(b)
  {
    if b == [] {
      assert a + b == a;
    } else {
      assert (a + b)[..|a + b| - 1] == a + b[..|b| - 1];
      DifferencesCat(a, b[..|b| - 1]);
    }
  }

  lemma EntriesTake(p: Planned, w: Wanted)
    requires w.avp ==> w.policy.id.Some?
    ensures Take(p, w).difs == p.difs + Differences(Entries(p, w))
  {
    var es := Entries(p, w);
    if es != [] {
      assert es[..0] == [] && Differences(es[..0]) == [];
      assert Differences(es) == if es[0].Matched? then [] else [es[0]];
    }
  }

  /** diffsOnly leaves out the matches and nothing else. */
  lemma {:induction false} ListedDifferences(s: Store, ws: seq<Wanted>)
    requires Identified(ws)
    ensures Differences(Listed(s, ws)) == TakeAll(s, ws).difs
  {
    if ws == [] {
    } else {
      var init, w := ws[..|ws| - 1], ws[|ws| - 1];
      ListedDifferences(s, init);
      DifferencesCat(Listed(s, init), Entries(TakeAll(s, init), w));
      EntriesTake(TakeAll(s, init), w);
    }
  }

  function Plan(s: Store, ws: seq<Wanted>, diffsOnly: bool): seq<Dif>
    requires Identified(ws)
  {
    if diffsOnly then TakeAll(s, ws).difs else Listed(s, ws)
  }

  method Reconcile(s: Store, ws: seq<Wanted>, diffsOnly: bool) returns (difs: seq<Dif>)
    requires Identified(ws)
    ensures Plan(s, ws, diffsOnly) <= difs && AreDeletes(difs[|Plan(s, ws, diffsOnly)|..], TakeAll(s, ws).rest)
  {
    var avpMap := s;
    var res: seq<Dif> := [];
    ghost var kept: seq<Pair> := [];
    for i := 0 to |ws|
      invariant TakeAll(s, ws[..i]) == Planned(TakeAll(s, ws[..i]).difs, kept, avpMap)
      invariant res == Plan(s, ws[..i], diffsOnly)
    {
      var w := ws[i];
      assert ws[..i + 1][..i] == ws[..i];
      if w.avp && IsTemplate(w) {
        res := res + [Ignore(w)];
        avpMap := avpMap - {w.policy.id.value};
      } else if w.avp && w.policy.id.value in avpMap {
        var id := w.policy.id.value;
        var differenceTypes := Compare(w.policy, avpMap[id].policy);
        if EQUAL in differenceTypes {
          if !diffsOnly {
            res := res + [Matched(id, w)];
          }
          kept := kept + [Pair(id, w)];
        } else {
          res := res + [Update(id, w, differenceTypes)];
        }
        avpMap := avpMap - {id};
      } else if !IsTemplate(w) {
        res := res + [New(w)];
      }
    }
    assert ws[..|ws|] == ws;
    var rest := DeleteRest(avpMap);
    difs := res + rest;
    assert difs[|res|..] == rest;
  }

  method DeleteRest(avpMap: Store) returns (dels: seq<Dif>)
    ensures AreDeletes(dels, avpMap)
  {
    dels := [];
    var todo := avpMap.Keys;
    while todo != {}
      invariant todo <= avpMap.Keys
      invariant forall i :: 0 <= i < |dels| ==>
        dels[i].Delete? && dels[i].id in avpMap && dels[i].stored == avpMap[dels[i].id] && dels[i].id !in todo
      invariant forall i, j :: 0 <= i < j < |dels| ==> dels[i].id != dels[j].id
      invariant forall id :: id in avpMap && id !in todo ==> exists i :: 0 <= i < |dels| && dels[i].id == id
      decreases |todo|
    {
      var id :| id in todo;
      ghost var before := dels;
      dels := dels + [Delete(id, avpMap[id])];
      todo := todo - {id};
      forall x | x in avpMap && x !in todo ensures exists i :: 0 <= i < |dels| && dels[i].id == x {
        if x == id {
          assert dels[|before|].id == x;
        } else {
          var i :| 0 <= i < |before| && before[i].id == x;
          assert dels[i].id == x;
        }
      }
    }
  }

  // ----- the account: what every stored policy is, while the differences are replayed

  predicate HasId(d: Dif) {
    d.Update? || d.Delete?
  }

  predicate Adds(d: Dif) {
    d.New? || d.Update?
  }

  /** An entry still to be replayed names the stored policy. */
  ghost predicate Pending(rest: seq<Dif>, id: string) {
    exists i :: 0 <= i < |rest| && HasId(rest[i]) && rest[i].id == id
  }

  ghost predicate Paired(pairs: seq<Pair>, id: string) {
    exists i :: 0 <= i < |pairs| && pairs[i].id == id
  }

  predicate DistinctIds(rest: seq<Dif>) {
    forall i, j :: 0 <= i < j < |rest| && HasId(rest[i]) && HasId(rest[j]) ==> rest[i].id != rest[j].id
  }

  predicate DistinctPairs(pairs: seq<Pair>) {
    forall i, j :: 0 <= i < j < |pairs| ==> pairs[i].id != pairs[j].id
  }

  /** A stored policy that stands for `w`: it compares EQUAL, and is either as it was or as wanted. */
  predicate StandsFor(s: Store, s0: Store, pair: Pair) {
    && pair.id in s && !s[pair.id].template
    && CompareEqual(pair.w.policy, s[pair.id].policy)
    && ((pair.id in s0 && s[pair.id] == s0[pair.id]) || s[pair.id] == Stored(pair.w.policy, false))
  }

  /** Every stored policy is a named template, waits for its entry, or stands for a wanted one. */
  ghost predicate Accounted(s: Store, rest: seq<Dif>, pairs: seq<Pair>, fixed: set<string>) {
    && (forall id :: id in s <==> id in fixed || Pending(rest, id) || Paired(pairs, id))
    && (forall id :: !(id in fixed && Pending(rest, id)) && !(id in fixed && Paired(pairs, id))
          && !(Pending(rest, id) && Paired(pairs, id)))
    && DistinctIds(rest) && DistinctPairs(pairs)
  }

  /** What waits is as it was, what stands is as wanted, and the entries fit what was stored. */
  ghost predicate Kept(s: Store, s0: Store, rest: seq<Dif>, pairs: seq<Pair>, fixed: set<string>) {
    && (forall id :: id in fixed || Pending(rest, id) ==> id in s0 && id in s && s[id] == s0[id])
    && (forall i :: 0 <= i < |pairs| ==> StandsFor(s, s0, pairs[i]))
    && (forall id :: id in s0 && s0[id].template ==> id in fixed || Pending(rest, id))
    && (forall i :: 0 <= i < |rest| && rest[i].Update? ==> rest[i].id in s0 && !s0[rest[i].id].template)
    && (forall i :: 0 <= i < |rest| && rest[i].Delete? ==> rest[i].id in s0 && rest[i].stored == s0[rest[i].id])
  }

  ghost predicate Account(s: Store, s0: Store, rest: seq<Dif>, pairs: seq<Pair>, fixed: set<string>) {
    Accounted(s, rest, pairs, fixed) && Kept(s, s0, rest, pairs, fixed)
  }

  lemma PendingTails(rest: seq<Dif>)
    requires rest != []
    ensures forall id :: Pending(rest, id) <==> (HasId(rest[0]) && rest[0].id == id) || Pending(rest[1..], id)
  {
    forall id ensures Pending(rest, id) <==> (HasId(rest[0]) && rest[0].id == id) || Pending(rest[1..], id) {
      if i :| 0 <= i < |rest| && HasId(rest[i]) && rest[i].id == id {
        if i > 0 {
          assert rest[1..][i - 1].id == id;
        }
      }
      if i :| 0 <= i < |rest[1..]| && HasId(rest[1..][i]) && rest[1..][i].id == id {
        assert rest[i + 1].id == id;
      }
    }
  }

  lemma PairedSnocs(pairs: seq<Pair>, p: Pair)
    ensures forall id :: Paired(pairs + [p], id) <==> Paired(pairs, id) || p.id == id
  {
    var ps := pairs + [p];
    forall id ensures Paired(ps, id) <==> Paired(pairs, id) || p.id == id {
      if i :| 0 <= i < |pairs| && pairs[i].id == id {
        assert ps[i].id == id;
      }
      assert ps[|pairs|].id == p.id;
    }
  }

  lemma StepSkip(s: Store, s0: Store, rest: seq<Dif>, pairs: seq<Pair>, fixed: set<string>)
    requires Account(s, s0, rest, pairs, fixed) && rest != [] && (rest[0].Ignore? || rest[0].Matched?)
    ensures Account(s, s0, rest[1..], pairs, fixed)
  {
    PendingTails(rest);
  }

  lemma StepNew(s: Store, s0: Store, rest: seq<Dif>, pairs: seq<Pair>, fixed: set<string>,
                id: string)
    requires Account(s, s0, rest, pairs, fixed) && rest != [] && rest[0].New? && id !in s
    ensures Account(s[id := Stored(rest[0].w.policy, false)], s0, rest[1..], pairs + [Pair(id, rest[0].w)], fixed)
  {
    var w := rest[0].w;
    var s' := s[id := Stored(w.policy, false)];
    assert !Paired(pairs, id);
    PairsGrow(s, s0, pairs, id, w);
    PendingTails(rest);
    assert Kept(s', s0, rest[1..], pairs + [Pair(id, w)], fixed);
    NewAccounted(s, s', rest, pairs, fixed, Pair(id, w));
  }

  lemma NewAccounted(s: Store, s': Store, rest: seq<Dif>, pairs: seq<Pair>, fixed: set<string>, p: Pair)
    requires Accounted(s, rest, pairs, fixed) && rest != [] && rest[0].New? && p.id !in s
    requires s'.Keys == s.Keys + {p.id} && DistinctPairs(pairs + [p])
    ensures Accounted(s', rest[1..], pairs + [p], fixed)
  {
    PendingTails(rest);
    PairedSnocs(pairs, p);
  }

  /** Pairs elsewhere are not touched by a change at `id`. */
  lemma PairsKept(s: Store, s': Store, s0: Store, pairs: seq<Pair>, id: string)
    requires forall i :: 0 <= i < |pairs| ==> StandsFor(s, s0, pairs[i])
    requires !Paired(pairs, id)
    requires forall x :: x != id && x in s ==> x in s' && s'[x] == s[x]
    ensures forall i :: 0 <= i < |pairs| ==> StandsFor(s', s0, pairs[i])
    ensures DistinctPairs(pairs) ==> forall w :: DistinctPairs(pairs + [Pair(id, w)])
  {
    forall i | 0 <= i < |pairs| ensures StandsFor(s', s0, pairs[i]) && pairs[i].id != id {
      assert StandsFor(s, s0, pairs[i]);
    }
  }

  lemma PairsGrow(s: Store, s0: Store, pairs: seq<Pair>, id: string, w: Wanted)
    requires forall i :: 0 <= i < |pairs| ==> StandsFor(s, s0, pairs[i])
    requires !Paired(pairs, id) && DistinctPairs(pairs)
    ensures var s' := s[id := Stored(w.policy, false)];
      var pairs' := pairs + [Pair(id, w)];
      DistinctPairs(pairs') && forall i :: 0 <= i < |pairs'| ==> StandsFor(s', s0, pairs'[i])
  {
    var s' := s[id := Stored(w.policy, false)];
    var pairs' := pairs + [Pair(id, w)];
    CompareEqualExact(w.policy, w.policy);
    PairsKept(s, s', s0, pairs, id);
    forall i | 0 <= i < |pairs'| ensures StandsFor(s', s0, pairs'[i]) {
      if i < |pairs| {
        assert pairs'[i] == pairs[i];
      }
    }
  }

  lemma StepDelete(s: Store, s0: Store, rest: seq<Dif>, pairs: seq<Pair>, fixed: set<string>)
    requires Account(s, s0, rest, pairs, fixed) && rest != [] && rest[0].Delete?
    requires rest[0].id in s && !s[rest[0].id].template
    ensures Account(s - {rest[0].id}, s0, rest[1..], pairs, fixed)
  {
    var id := rest[0].id;
    PendingTails(rest);
    FirstIsOnly(rest);
    PairsKept(s, s - {id}, s0, pairs, id);
  }

  lemma FirstIsOnly(rest: seq<Dif>)
    requires DistinctIds(rest) && rest != [] && HasId(rest[0])
    ensures Pending(rest, rest[0].id) && !Pending(rest[1..], rest[0].id)
  {
    forall i | 0 <= i < |rest[1..]| && HasId(rest[1..][i]) ensures rest[1..][i].id != rest[0].id {
      assert rest[1..][i] == rest[i + 1];
    }
  }

  /** Delete and create: after the deletion the entry has become a creation. */
  lemma StepReplace(s: Store, s0: Store, rest: seq<Dif>, pairs: seq<Pair>, fixed: set<string>)
    requires Account(s, s0, rest, pairs, fixed) && rest != [] && rest[0].Update?
    ensures Account(s - {rest[0].id}, s0, [New(rest[0].w)] + rest[1..], pairs, fixed)
  {
    var id := rest[0].id;
    var rest' := [New(rest[0].w)] + rest[1..];
    assert rest'[1..] == rest[1..];
    PendingTails(rest);
    PendingTails(rest');
    FirstIsOnly(rest);
    PairsKept(s, s - {id}, s0, pairs, id);
  }

  lemma StepUpdate(s: Store, s0: Store, rest: seq<Dif>, pairs: seq<Pair>, fixed: set<string>)
    requires Account(s, s0, rest, pairs, fixed) && rest != [] && rest[0].Update?
    ensures Account(s[rest[0].id := Stored(rest[0].w.policy, false)], s0, rest[1..],
                    pairs + [Pair(rest[0].id, rest[0].w)], fixed)
  {
    var id, w := rest[0].id, rest[0].w;
    var s' := s[id := Stored(w.policy, false)];
    FirstIsOnly(rest);
    PairsGrow(s, s0, pairs, id, w);
    PendingTails(rest);
    assert Kept(s', s0, rest[1..], pairs + [Pair(id, w)], fixed);
    UpdateAccounted(s, s', rest, pairs, fixed, Pair(id, w));
  }

  lemma UpdateAccounted(s: Store, s': Store, rest: seq<Dif>, pairs: seq<Pair>, fixed: set<string>, p: Pair)
    requires Accounted(s, rest, pairs, fixed) && rest != [] && HasId(rest[0]) && p.id == rest[0].id
    requires s'.Keys == s.Keys && DistinctPairs(pairs + [p])
    ensures Accounted(s', rest[1..], pairs + [p], fixed)
  {
    FirstIsOnly(rest);
    PendingTails(rest);
    PairedSnocs(pairs, p);
  }

  // ----- the plan opens the account

  /** Some request names the stored policy. */
  predicate Names(ws: seq<Wanted>, id: string) {
    exists i :: 0 <= i < |ws| && ws[i].avp && ws[i].policy.id == Some(id)
  }

  /** The first request to name it calls it a template. */
  predicate SetAside(ws: seq<Wanted>, id: string) {
    exists i :: 0 <= i < |ws| && IsTemplate(ws[i]) && FirstNaming(ws, i, id)
  }

  predicate FirstNaming(ws: seq<Wanted>, i: nat, id: string)
    requires i < |ws|
  {
    ws[i].avp && ws[i].policy.id == Some(id) && !Names(ws[..i], id)
  }

  /** The stored policies that are set aside. */
  function Fixed(s0: Store, ws: seq<Wanted>): set<string> {
    set id | id in s0 && SetAside(ws, id)
  }

  /** Request `i` is the first to name some stored policy. */
  predicate NamesFirst(s0: Store, ws: seq<Wanted>, i: nat)
    requires i < |ws|
  {
    && ws[i].avp && ws[i].policy.id.Some? && ws[i].policy.id.value in s0
    && !Names(ws[..i], ws[i].policy.id.value)
  }

  /** The first request that names a stored policy says rightly whether it is a template. */
  predicate KindsAgree(s0: Store, ws: seq<Wanted>) {
    forall i :: 0 <= i < |ws| && NamesFirst(s0, ws, i) ==>
      (IsTemplate(ws[i]) <==> s0[ws[i].policy.id.value].template)
  }

  /** No stored template is first named by a request for a static policy. */
  predicate TemplatesKept(s0: Store, ws: seq<Wanted>) {
    forall i :: 0 <= i < |ws| && NamesFirst(s0, ws, i) && s0[ws[i].policy.id.value].template ==> IsTemplate(ws[i])
  }

  /** The account before the deletions are listed: stored policies not yet named are in `rest`. */
  ghost predicate Opened(s0: Store, fixed: set<string>, p: Planned) {
    && (forall id :: id in s0 <==> id in fixed || Pending(p.difs, id) || Paired(p.kept, id) || id in p.rest)
    && (forall id :: !(id in fixed && Pending(p.difs, id)) && !(id in fixed && Paired(p.kept, id))
          && !(Pending(p.difs, id) && Paired(p.kept, id)))
    && (forall id :: id in p.rest ==>
          id !in fixed && !Pending(p.difs, id) && !Paired(p.kept, id) && p.rest[id] == s0[id])
    && DistinctIds(p.difs) && DistinctPairs(p.kept)
    && (forall i :: 0 <= i < |p.kept| ==> StandsFor(s0, s0, p.kept[i]))
    && (forall id :: Pending(p.difs, id) || Paired(p.kept, id) ==> !s0[id].template)
    && (forall i :: 0 <= i < |p.difs| ==> !p.difs[i].Delete?)
  }

  lemma PendingSnocs(difs: seq<Dif>, d: Dif)
    ensures forall id :: Pending(difs + [d], id) <==> Pending(difs, id) || (HasId(d) && d.id == id)
  {
    var ds := difs + [d];
    forall id ensures Pending(ds, id) <==> Pending(difs, id) || (HasId(d) && d.id == id) {
      if i :| 0 <= i < |difs| && HasId(difs[i]) && difs[i].id == id {
        assert ds[i].id == id;
      }
      if HasId(d) && d.id == id {
        assert ds[|difs|].id == id;
      }
    }
  }

  /** Whether `w` is the first to name a stored policy, and calls it a template. */
  function FixedWith(fixed: set<string>, p: Planned, w: Wanted): set<string>
    requires w.avp ==> w.policy.id.Some?
  {
    if w.avp && w.policy.id.value in p.rest && IsTemplate(w) then fixed + {w.policy.id.value} else fixed
  }

  lemma OpenedTake(s0: Store, fixed: set<string>, p: Planned, w: Wanted)
    requires Opened(s0, fixed, p) && (w.avp ==> w.policy.id.Some?)
    requires w.avp && w.policy.id.value in p.rest && s0[w.policy.id.value].template ==> IsTemplate(w)
    ensures Opened(s0, FixedWith(fixed, p, w), Take(p, w))
  {
    if w.avp && w.policy.id.value in p.rest {
      if IsTemplate(w) {
        OpenedTemplate(s0, fixed, p, w);
      } else {
        OpenedUse(s0, fixed, p, w);
      }
    } else {
      OpenedOther(s0, fixed, p, w);
    }
  }

  lemma OpenedTemplate(s0: Store, fixed: set<string>, p: Planned, w: Wanted)
    requires Opened(s0, fixed, p) && w.avp && w.policy.id.Some? && w.policy.id.value in p.rest && IsTemplate(w)
    ensures Opened(s0, fixed + {w.policy.id.value}, Take(p, w))
  {
    PendingSnocs(p.difs, Ignore(w));
  }

  lemma OpenedOther(s0: Store, fixed: set<string>, p: Planned, w: Wanted)
    requires Opened(s0, fixed, p) && (w.avp ==> w.policy.id.Some? && w.policy.id.value !in p.rest)
    ensures Opened(s0, fixed, Take(p, w))
  {
    if w.avp && IsTemplate(w) {
      PendingSnocs(p.difs, Ignore(w));
      assert p.rest - {w.policy.id.value} == p.rest;
    } else if !IsTemplate(w) {
      PendingSnocs(p.difs, New(w));
    }
  }

  lemma OpenedUse(s0: Store, fixed: set<string>, p: Planned, w: Wanted)
    requires Opened(s0, fixed, p) && w.avp && w.policy.id.Some? && w.policy.id.value in p.rest && !IsTemplate(w)
    requires !s0[w.policy.id.value].template
    ensures Opened(s0, fixed, Take(p, w))
  {
    var id := w.policy.id.value;
    var d := Compare(w.policy, p.rest[id].policy);
    if EQUAL in d {
      PairedSnocs(p.kept, Pair(id, w));
      assert StandsFor(s0, s0, Pair(id, w));
      PairsDistinct(p.kept, Pair(id, w));
    } else {
      PendingSnocs(p.difs, Update(id, w, d));
      DifsDistinct(p.difs, Update(id, w, d));
    }
  }

  lemma PairsDistinct(pairs: seq<Pair>, p: Pair)
    requires DistinctPairs(pairs) && !Paired(pairs, p.id)
    ensures DistinctPairs(pairs + [p])
  {}

  lemma DifsDistinct(difs: seq<Dif>, d: Dif)
    requires DistinctIds(difs) && HasId(d) && !Pending(difs, d.id)
    ensures DistinctIds(difs + [d])
  {}

  lemma NamesSnoc(init: seq<Wanted>, w: Wanted)
    ensures forall id :: Names(init + [w], id) <==> Names(init, id) || (w.avp && w.policy.id == Some(id))
  {
    var ws := init + [w];
    forall id ensures Names(ws, id) <==> Names(init, id) || (w.avp && w.policy.id == Some(id)) {
      if i :| 0 <= i < |init| && init[i].avp && init[i].policy.id == Some(id) {
        assert ws[i] == init[i];
      }
      if w.avp && w.policy.id == Some(id) {
        assert ws[|init|] == w;
      }
    }
  }

  lemma SetAsideSnoc(init: seq<Wanted>, w: Wanted, id: string)
    ensures SetAside(init + [w], id) <==>
      SetAside(init, id) || (w.avp && w.policy.id == Some(id) && !Names(init, id) && IsTemplate(w))
  {
    var ws := init + [w];
    assert ws[..|init|] == init;
    forall i | 0 <= i < |init| ensures ws[..i] == init[..i] && ws[i] == init[i] {}
    if i :| 0 <= i < |init| && IsTemplate(init[i]) && FirstNaming(init, i, id) {
      assert FirstNaming(ws, i, id);
    }
    if i :| 0 <= i < |ws| && IsTemplate(ws[i]) && FirstNaming(ws, i, id) {
      if i < |init| {
        assert FirstNaming(init, i, id);
      }
    }
    if w.avp && w.policy.id == Some(id) && !Names(init, id) && IsTemplate(w) {
      assert FirstNaming(ws, |init|, id) && ws[|init|] == w;
    }
  }

  lemma FixedSnoc(s0: Store, init: seq<Wanted>, w: Wanted)
    requires Identified(init) && (w.avp ==> w.policy.id.Some?)
    ensures Fixed(s0, init + [w]) == FixedWith(Fixed(s0, init), TakeAll(s0, init), w)
  {
    RestUnnamed(s0, init);
    forall id ensures id in Fixed(s0, init + [w]) <==> id in FixedWith(Fixed(s0, init), TakeAll(s0, init), w) {
      SetAsideSnoc(init, w, id);
    }
  }

  /** A name has a first naming. */
  lemma {:induction false} FirstExists(ws: seq<Wanted>, id: string) returns (i: nat)
    requires Names(ws, id)
    ensures i < |ws| && FirstNaming(ws, i, id)
  {
    var k :| 0 <= k < |ws| && ws[k].avp && ws[k].policy.id == Some(id);
    if Names(ws[..k], id) {
      i := FirstExists(ws[..k], id);
      assert ws[..k][..i] == ws[..i];
    } else {
      i := k;
    }
  }

  /** A named template is set aside, when templates are kept. */
  lemma NamedSetAside(s0: Store, ws: seq<Wanted>, id: string)
    requires id in s0 && s0[id].template && Names(ws, id) && TemplatesKept(s0, ws)
    ensures id in Fixed(s0, ws)
  {
    var i := FirstExists(ws, id);
    assert NamesFirst(s0, ws, i);
  }

  /** The stored policies left over are those no request has named. */
  lemma {:induction false} RestUnnamed(s0: Store, ws: seq<Wanted>)
    requires Identified(ws)
    ensures forall id :: id in TakeAll(s0, ws).rest <==> id in s0 && !Names(ws, id)
  {
    if ws == [] {
    } else {
      var init, w := ws[..|ws| - 1], ws[|ws| - 1];
      assert ws == init + [w];
      RestUnnamed(s0, init);
      NamesSnoc(init, w);
    }
  }

  lemma {:induction false} PlanOpens(s0: Store, ws: seq<Wanted>)
    requires Identified(ws) && TemplatesKept(s0, ws)
    ensures Opened(s0, Fixed(s0, ws), TakeAll(s0, ws))
  {
    if ws == [] {
    } else {
      var init, w := ws[..|ws| - 1], ws[|ws| - 1];
      assert ws == init + [w];
      forall i | 0 <= i < |init| ensures NamesFirst(s0, init, i) <==> NamesFirst(s0, ws, i) {
        assert init[..i] == ws[..i];
      }
      PlanOpens(s0, init);
      FixedSnoc(s0, init, w);
      RestUnnamed(s0, init);
      assert w.avp && w.policy.id.value in TakeAll(s0, init).rest ==> NamesFirst(s0, ws, |init|);
      OpenedTake(s0, Fixed(s0, init), TakeAll(s0, init), w);
    }
  }

  lemma PendingCat(a: seq<Dif>, b: seq<Dif>)
    ensures forall id :: Pending(a + b, id) <==> Pending(a, id) || Pending(b, id)
  {
    forall id ensures Pending(a + b, id) <==> Pending(a, id) || Pending(b, id) {
      if i :| 0 <= i < |a| && HasId(a[i]) && a[i].id == id {
        assert (a + b)[i] == a[i];
      }
      if i :| 0 <= i < |b| && HasId(b[i]) && b[i].id == id {
        assert (a + b)[|a| + i] == b[i];
      }
    }
  }

  lemma DeletesPending(dels: seq<Dif>, rest: Store)
    requires AreDeletes(dels, rest)
    ensures forall id :: Pending(dels, id) <==> id in rest
  {
    forall id ensures Pending(dels, id) <==> id in rest {
      if id in rest {
        var i :| 0 <= i < |dels| && dels[i].id == id;
        assert HasId(dels[i]);
      }
    }
  }

  lemma CatNoRepeats(difs: seq<Dif>, dels: seq<Dif>, rest: Store)
    requires DistinctIds(difs) && AreDeletes(dels, rest)
    requires forall id :: id in rest ==> !Pending(difs, id)
    ensures DistinctIds(difs + dels)
  {
    var all := difs + dels;
    forall i, j | 0 <= i < j < |all| && HasId(all[i]) && HasId(all[j]) ensures all[i].id != all[j].id {
      if i < |difs| <= j {
        assert Pending(difs, all[i].id) && all[j] == dels[j - |difs|];
      } else if |difs| <= i {
        assert all[i] == dels[i - |difs|] && all[j] == dels[j - |difs|];
      }
    }
  }

  lemma CatEntries(s0: Store, difs: seq<Dif>, dels: seq<Dif>, rest: Store)
    requires forall id :: Pending(difs, id) ==> id in s0 && !s0[id].template
    requires forall i :: 0 <= i < |difs| ==> !difs[i].Delete?
    requires AreDeletes(dels, rest) && forall id :: id in rest ==> id in s0 && rest[id] == s0[id]
    ensures var all := difs + dels;
      && (forall i :: 0 <= i < |all| && all[i].Update? ==> all[i].id in s0 && !s0[all[i].id].template)
      && (forall i :: 0 <= i < |all| && all[i].Delete? ==> all[i].id in s0 && all[i].stored == s0[all[i].id])
  {
    var all := difs + dels;
    forall i | 0 <= i < |all| && all[i].Update? ensures all[i].id in s0 && !s0[all[i].id].template {
      assert all[i] == difs[i] && Pending(difs, all[i].id);
    }
    forall i | 0 <= i < |all| && all[i].Delete? ensures all[i].id in s0 && all[i].stored == s0[all[i].id] {
      assert all[i] == dels[i - |difs|];
    }
  }

  lemma OpenedAccount(s0: Store, fixed: set<string>, p: Planned, dels: seq<Dif>)
    requires Opened(s0, fixed, p) && AreDeletes(dels, p.rest)
    ensures Account(s0, s0, p.difs + dels, p.kept, fixed)
  {
    PendingCat(p.difs, dels);
    DeletesPending(dels, p.rest);
    CatNoRepeats(p.difs, dels, p.rest);
    CatEntries(s0, p.difs, dels, p.rest);
  }

  // ----- counting the wanted static policies

  function Seconds(pairs: seq<Pair>): seq<Wanted> {
    seq(|pairs|, i requires 0 <= i < |pairs| => pairs[i].w)
  }

  /** Those still to be created or updated. */
  function Coming(difs: seq<Dif>): seq<Wanted> {
    if difs == [] then [] else (if Adds(difs[0]) then [difs[0].w] else []) + Coming(difs[1..])
  }

  function Statics(ws: seq<Wanted>): seq<Wanted> {
    if ws == [] then []
    else Statics(ws[..|ws| - 1]) + (if IsTemplate(ws[|ws| - 1]) then [] else [ws[|ws| - 1]])
  }

  lemma {:induction false} ComingCat(a: seq<Dif>, b: seq<Dif>)
    ensures Coming(a + b) == Coming(a) + Coming(b)
  {
    if a == [] {
      assert a + b == b;
    } else {
      var c := a + b;
      assert c[0] == a[0] && c[1..] == a[1..] + b;
      ComingCat(a[1..], b);
      var t := if Adds(a[0]) then [a[0].w] else [];
      assert Coming(c) == t + (Coming(a[1..]) + Coming(b));
      assert t + (Coming(a[1..]) + Coming(b)) == (t + Coming(a[1..])) + Coming(b);
    }
  }

  lemma {:induction false} NoneComing(dels: seq<Dif>)
    requires forall i :: 0 <= i < |dels| ==> dels[i].Delete?
    ensures Coming(dels) == []
  {
    if dels == [] {
    } else {
      NoneComing(dels[1..]);
    }
  }

  lemma SecondsSnoc(pairs: seq<Pair>, p: Pair)
    ensures multiset(Seconds(pairs + [p])) == multiset(Seconds(pairs)) + multiset{p.w}
  {
    assert Seconds(pairs + [p]) == Seconds(pairs) + [p.w];
  }

  lemma ComingSnoc(difs: seq<Dif>, d: Dif)
    ensures multiset(Coming(difs + [d])) == multiset(Coming(difs)) + if Adds(d) then multiset{d.w} else multiset{}
  {
    ComingCat(difs, [d]);
    assert Coming([d]) == if Adds(d) then [d.w] else [];
  }

  lemma {:induction false} PlanCounts(s0: Store, ws: seq<Wanted>)
    requires Identified(ws)
    ensures multiset(Seconds(TakeAll(s0, ws).kept)) + multiset(Coming(TakeAll(s0, ws).difs)) == multiset(Statics(ws))
  {
    if ws == [] {
    } else {
      var init, w := ws[..|ws| - 1], ws[|ws| - 1];
      PlanCounts(s0, init);
      TakeCounts(TakeAll(s0, init), w);
    }
  }

  lemma UseCounts(p: Planned, w: Wanted)
    requires w.avp && w.policy.id.Some? && !IsTemplate(w) && w.policy.id.value in p.rest
    ensures multiset(Seconds(Take(p, w).kept)) + multiset(Coming(Take(p, w).difs))
         == multiset(Seconds(p.kept)) + multiset(Coming(p.difs)) + multiset{w}
  {
    var id := w.policy.id.value;
    SecondsSnoc(p.kept, Pair(id, w));
    ComingSnoc(p.difs, Update(id, w, Compare(w.policy, p.rest[id].policy)));
  }

  lemma TakeCounts(p: Planned, w: Wanted)
    requires w.avp ==> w.policy.id.Some?
    ensures multiset(Seconds(Take(p, w).kept)) + multiset(Coming(Take(p, w).difs))
         == multiset(Seconds(p.kept)) + multiset(Coming(p.difs)) + if IsTemplate(w) then multiset{} else multiset{w}
  {
    if w.avp && IsTemplate(w) {
      ComingSnoc(p.difs, Ignore(w));
    } else if w.avp && w.policy.id.value in p.rest {
      UseCounts(p, w);
    } else if !IsTemplate(w) {
      ComingSnoc(p.difs, New(w));
    }
  }

  // ----- replay

  /** Account and count together, and whom the pairs stand for. */
  ghost predicate Ledger(s: Store, s0: Store, rest: seq<Dif>, pairs: seq<Pair>, ws: seq<Wanted>) {
    && Account(s, s0, rest, pairs, Fixed(s0, ws))
    && multiset(Seconds(pairs)) + multiset(Coming(rest)) == multiset(Statics(ws))
  }

  /** Every stored policy is one from before, or one that was asked for. */
  predicate OldOrWanted(s: Store, s0: Store, ws: seq<Wanted>) {
    forall id :: id in s ==>
      (id in s0 && s[id] == s0[id]) || exists i :: 0 <= i < |ws| && s[id] == Stored(ws[i].policy, false)
  }

  predicate TemplatesNamed(s0: Store, ws: seq<Wanted>) {
    forall id :: id in s0 && s0[id].template ==> Names(ws, id)
  }

  /** What a run that succeeds leaves: templates untouched, and the static policies one for one
      with the wanted static ones, each comparing EQUAL. */
  ghost predicate Settled(s: Store, s0: Store, ws: seq<Wanted>, pairs: seq<Pair>) {
    && (forall id :: (id in s && s[id].template) <==> (id in s0 && s0[id].template))
    && (forall id :: id in s && s[id].template ==> s[id] == s0[id])
    && DistinctPairs(pairs)
    && (forall id :: (id in s && !s[id].template) <==> Paired(pairs, id))
    && (forall i :: 0 <= i < |pairs| ==> StandsFor(s, s0, pairs[i]))
    && multiset(Seconds(pairs)) == multiset(Statics(ws))
  }

  ghost predicate InSync(s: Store, s0: Store, ws: seq<Wanted>) {
    exists pairs :: Settled(s, s0, ws, pairs)
  }

  function PairIds(pairs: seq<Pair>): set<string> {
    set i | 0 <= i < |pairs| :: pairs[i].id
  }

  lemma {:induction false} PairIdsSize(pairs: seq<Pair>)
    requires DistinctPairs(pairs)
    ensures |PairIds(pairs)| == |pairs|
  {
    if pairs == [] {
    } else {
      var init, p := pairs[..|pairs| - 1], pairs[|pairs| - 1];
      PairIdsSize(init);
      assert PairIds(pairs) == PairIds(init) + {p.id} by {
        forall x ensures x in PairIds(pairs) <==> x in PairIds(init) + {p.id} {
          if i :| 0 <= i < |init| && init[i].id == x {
            assert pairs[i].id == x;
          }
        }
      }
    }
  }

  lemma SecondsSize(pairs: seq<Pair>)
    ensures |multiset(Seconds(pairs))| == |pairs|
  {
    assert |Seconds(pairs)| == |pairs|;
  }

  lemma SubsetOfSize(a: set<string>, b: set<string>)
    requires a <= b && |a| == |b|
    ensures a == b
  {
    assert b == a + (b - a);
    assert |b| == |a| + |b - a|;
  }

  /** At the end of a run: when no static policy was set aside, the pairs settle the request. */
  lemma LedgerSettled(s: Store, s0: Store, pairs: seq<Pair>, ws: seq<Wanted>)
    requires Ledger(s, s0, [], pairs, ws) && forall id :: id in Fixed(s0, ws) ==> s0[id].template
    ensures InSync(s, s0, ws)
  {
    forall id | Paired(pairs, id) ensures id in s && !s[id].template {
      var i :| 0 <= i < |pairs| && pairs[i].id == id;
      assert StandsFor(s, s0, pairs[i]);
    }
    assert Settled(s, s0, ws, pairs);
  }

  /** And when one was, there is a static policy too many. */
  lemma LedgerOver(s: Store, s0: Store, pairs: seq<Pair>, ws: seq<Wanted>, id: string)
    requires Ledger(s, s0, [], pairs, ws) && id in Fixed(s0, ws) && !s0[id].template
    ensures !InSync(s, s0, ws)
  {
    if others :| Settled(s, s0, ws, others) {
      SecondsSize(pairs);
      SecondsSize(others);
      PairIdsSize(pairs);
      PairIdsSize(others);
      forall x | x in PairIds(pairs) ensures x in PairIds(others) {
        var i :| 0 <= i < |pairs| && pairs[i].id == x;
        assert StandsFor(s, s0, pairs[i]);
        assert Paired(others, x);
      }
      SubsetOfSize(PairIds(pairs), PairIds(others));
      assert Paired(others, id);
      assert id in PairIds(pairs);
      assert Paired(pairs, id);
      assert false;
    }
  }

  /** Main result about the end of a run: the store is in sync with the request exactly when the
      first request to name each stored policy says rightly whether it is a template. */
  lemma LedgerExact(s: Store, s0: Store, pairs: seq<Pair>, ws: seq<Wanted>)
    requires Ledger(s, s0, [], pairs, ws) && TemplatesKept(s0, ws)
    ensures TemplatesNamed(s0, ws)
    ensures InSync(s, s0, ws) <==> KindsAgree(s0, ws)
  {
    forall id | id in s0 && s0[id].template ensures Names(ws, id) {
      assert id in Fixed(s0, ws);
    }
    if id :| id in Fixed(s0, ws) && !s0[id].template {
      LedgerOver(s, s0, pairs, ws, id);
      var i :| 0 <= i < |ws| && IsTemplate(ws[i]) && FirstNaming(ws, i, id);
      assert NamesFirst(s0, ws, i);
    } else {
      LedgerSettled(s, s0, pairs, ws);
      forall i | 0 <= i < |ws| && NamesFirst(s0, ws, i) && IsTemplate(ws[i])
        ensures s0[ws[i].policy.id.value].template
      {
        assert FirstNaming(ws, i, ws[i].policy.id.value);
        assert ws[i].policy.id.value in Fixed(s0, ws);
      }
    }
  }

  lemma LedgerStart(s0: Store, ws: seq<Wanted>, dels: seq<Dif>)
    requires Identified(ws) && TemplatesKept(s0, ws) && AreDeletes(dels, TakeAll(s0, ws).rest)
    ensures Ledger(s0, s0, TakeAll(s0, ws).difs + dels, TakeAll(s0, ws).kept, ws)
  {
    PlanOpens(s0, ws);
    OpenedAccount(s0, Fixed(s0, ws), TakeAll(s0, ws), dels);
    PlanCounts(s0, ws);
    ComingCat(TakeAll(s0, ws).difs, dels);
    NoneComing(dels);
    assert Coming(TakeAll(s0, ws).difs) + [] == Coming(TakeAll(s0, ws).difs);
  }

  /** Every entry that adds a policy adds one that was asked for. */
  predicate AddsWanted(rest: seq<Dif>, ws: seq<Wanted>) {
    forall i :: 0 <= i < |rest| && Adds(rest[i]) ==> rest[i].w in ws
  }

  lemma {:induction false} PlanAddsWanted(s0: Store, ws: seq<Wanted>)
    requires Identified(ws)
    ensures AddsWanted(TakeAll(s0, ws).difs, ws)
  {
    if ws == [] {
    } else {
      PlanAddsWanted(s0, ws[..|ws| - 1]);
      assert ws == ws[..|ws| - 1] + [ws[|ws| - 1]];
    }
  }

  /** What holds before each entry; the ledger is kept whenever templates are. */
  ghost predicate Books(s: Store, s0: Store, rest: seq<Dif>, pairs: seq<Pair>, ws: seq<Wanted>) {
    && OldOrWanted(s, s0, ws) && AddsWanted(rest, ws)
    && (TemplatesKept(s0, ws) ==> Ledger(s, s0, rest, pairs, ws))
  }

  lemma DeletesAddNothing(difs: seq<Dif>, dels: seq<Dif>, ws: seq<Wanted>)
    requires AddsWanted(difs, ws) && forall i :: 0 <= i < |dels| ==> dels[i].Delete?
    ensures AddsWanted(difs + dels, ws)
  {}

  lemma BooksStart(s0: Store, ws: seq<Wanted>, dels: seq<Dif>)
    requires Identified(ws) && AreDeletes(dels, TakeAll(s0, ws).rest)
    ensures Books(s0, s0, TakeAll(s0, ws).difs + dels, TakeAll(s0, ws).kept, ws)
  {
    PlanAddsWanted(s0, ws);
    DeletesAddNothing(TakeAll(s0, ws).difs, dels, ws);
    if TemplatesKept(s0, ws) {
      LedgerStart(s0, ws, dels);
    }
  }

  lemma CountAdded(pairs: seq<Pair>, p: Pair, rest: seq<Dif>, all: multiset<Wanted>)
    requires rest != [] && Adds(rest[0]) && rest[0].w == p.w
    requires multiset(Seconds(pairs)) + multiset(Coming(rest)) == all
    ensures multiset(Seconds(pairs + [p])) + multiset(Coming(rest[1..])) == all
  {
    SecondsSnoc(pairs, p);
    assert multiset(Coming(rest)) == multiset{p.w} + multiset(Coming(rest[1..]));
  }

  // ----- the calls

  /** What an entry asks of the store. */
  function CallsOf(d: Dif): seq<Call> {
    match d
    case New(w) => [CreateCall(w.policy)]
    case Delete(id, stored) => [DeleteCall(PrepareDelete(id, stored.template))]
    case Update(id, w, t) =>
      if SUBJECT in t || OBJECT in t then [DeleteCall(Some(id)), CreateCall(w.policy)]
      else [UpdateCall(id, w.policy)]
    case _ => []
  }

  function AllCalls(difs: seq<Dif>): seq<Call> {
    if difs == [] then [] else AllCalls(difs[..|difs| - 1]) + CallsOf(difs[|difs| - 1])
  }

  /** The calls are made in order up to the first that fails. */
  predicate Made(done: seq<Outcome>, calls: seq<Call>, ok: bool) {
    && |done| <= |calls|
    && (forall i :: 0 <= i < |done| ==> done[i].call == calls[i])
    && (forall i :: 0 <= i < |done| - 1 ==> done[i].ok)
    && if ok then |done| == |calls| && forall i :: 0 <= i < |done| ==> done[i].ok
       else done != [] && !done[|done| - 1].ok
  }

  predicate MadeSince(before: seq<Outcome>, after: seq<Outcome>, calls: seq<Call>, ok: bool) {
    before <= after && Made(after[|before|..], calls, ok)
  }

  lemma {:induction false} AllCallsCat(a: seq<Dif>, b: seq<Dif>)
    ensures AllCalls(a + b) == AllCalls(a) + AllCalls(b)
  {
    if b == [] {
      assert a + b == a;
    } else {
      var init, d := b[..|b| - 1], b[|b| - 1];
      assert (a + b)[..|a + b| - 1] == a + init && (a + b)[|a + b| - 1] == d;
      AllCallsCat(a, init);
      assert AllCalls(a) + (AllCalls(init) + CallsOf(d)) == (AllCalls(a) + AllCalls(init)) + CallsOf(d);
    }
  }

  lemma MadeThen(a: seq<Outcome>, b: seq<Outcome>, c: seq<Outcome>, x: seq<Call>, y: seq<Call>, ok: bool)
    requires MadeSince(a, b, x, true) && MadeSince(b, c, y, ok)
    ensures MadeSince(a, c, x + y, ok)
  {
    assert c[|a|..] == b[|a|..] + c[|b|..];
  }

  lemma MadeStops(a: seq<Outcome>, b: seq<Outcome>, x: seq<Call>, y: seq<Call>)
    requires MadeSince(a, b, x, false)
    ensures MadeSince(a, b, x + y, false)
  {}

  lemma AllCallsOne(d: Dif)
    ensures AllCalls([d]) == CallsOf(d)
  {
    assert [d][..0] == [];
    assert [] + CallsOf(d) == CallsOf(d);
  }

  /** One more entry: the calls go on, or the run ends. */
  lemma MadeStep(a: seq<Outcome>, b: seq<Outcome>, c: seq<Outcome>, before: seq<Dif>, d: Dif, after: seq<Dif>, ok: bool)
    requires MadeSince(a, b, AllCalls(before), true) && MadeSince(b, c, CallsOf(d), ok)
    ensures ok ==> MadeSince(a, c, AllCalls(before + [d]), true)
    ensures !ok ==> MadeSince(a, c, AllCalls(before + [d] + after), false)
  {
    MadeThen(a, b, c, AllCalls(before), CallsOf(d), ok);
    AllCallsCat(before, [d]);
    AllCallsOne(d);
    if !ok {
      AllCallsCat(before + [d], after);
      MadeStops(a, c, AllCalls(before + [d]), AllCalls(after));
    }
  }

  /** The calls a request leads to, whatever order the deletions are listed in. */
  ghost predicate CallsMade(done: seq<Outcome>, s0: Store, ws: seq<Wanted>, ok: bool)
    requires Identified(ws)
  {
    exists dels :: AreDeletes(dels, TakeAll(s0, ws).rest) && Made(done, AllCalls(TakeAll(s0, ws).difs + dels), ok)
  }

  predicate Asked(done: seq<Outcome>, call: Call) {
    exists i :: 0 <= i < |done| && done[i].call == call
  }

  /** Request `i` is the first to name the stored policy, does not call it a template, and differs. */
  predicate Changes(s0: Store, ws: seq<Wanted>, i: nat, id: string)
    requires i < |ws|
  {
    && NamesFirst(s0, ws, i) && ws[i].policy.id == Some(id)
    && !IsTemplate(ws[i]) && !CompareEqual(ws[i].policy, s0[id].policy)
  }

  /** The stored policy is changed by a request with other subjects or another object. */
  predicate Replaced(s0: Store, ws: seq<Wanted>, id: string) {
    exists i :: 0 <= i < |ws| && Changes(s0, ws, i, id) && Moves(ws[i].policy, s0[id].policy)
  }

  predicate Moves(p: PolicyInfo, q: PolicyInfo) {
    SUBJECT in Compare(p, q) || OBJECT in Compare(p, q)
  }

  /** It is changed to `p` by a request with the same subjects and object. */
  predicate Amended(s0: Store, ws: seq<Wanted>, id: string, p: PolicyInfo) {
    exists i :: 0 <= i < |ws| && Changes(s0, ws, i, id) && !Moves(ws[i].policy, s0[id].policy) && ws[i].policy == p
  }

  /** A request for `p`, not a template, is the first to name nothing, or replaces what it names. */
  predicate Created(s0: Store, ws: seq<Wanted>, p: PolicyInfo) {
    exists i :: 0 <= i < |ws| && Creates(s0, ws, i) && ws[i].policy == p
  }

  predicate Creates(s0: Store, ws: seq<Wanted>, i: nat)
    requires i < |ws|
  {
    && !IsTemplate(ws[i])
    && (NamesFirst(s0, ws, i) ==>
          var q := s0[ws[i].policy.id.value].policy;
          !CompareEqual(ws[i].policy, q) && Moves(ws[i].policy, q))
  }

  /** The creations in the plan are the static requests that are the first to name nothing. */
  lemma {:induction false} NewsExactly(s0: Store, ws: seq<Wanted>, w: Wanted)
    requires Identified(ws)
    ensures New(w) in TakeAll(s0, ws).difs <==>
      exists i :: 0 <= i < |ws| && !NamesFirst(s0, ws, i) && !IsTemplate(ws[i]) && ws[i] == w
  {
    if ws == [] {
    } else {
      var init, v := ws[..|ws| - 1], ws[|ws| - 1];
      assert ws == init + [v];
      NewsExactly(s0, init, w);
      RestUnnamed(s0, init);
      forall i | 0 <= i < |init| ensures NamesFirst(s0, init, i) <==> NamesFirst(s0, ws, i) {
        assert init[..i] == ws[..i] && init[i] == ws[i];
      }
      assert ws[..|init|] == init;
      TakeNews(TakeAll(s0, init), v, w);
    }
  }

  lemma TakeNews(p: Planned, v: Wanted, w: Wanted)
    requires v.avp ==> v.policy.id.Some?
    ensures New(w) in Take(p, v).difs <==>
      New(w) in p.difs || (!(v.avp && v.policy.id.value in p.rest) && !IsTemplate(v) && v == w)
  {}

  /** The updates in the plan are the first requests that differ from what they name. */
  lemma {:induction false} UpdatesExactly(s0: Store, ws: seq<Wanted>, d: Dif)
    requires Identified(ws) && d.Update?
    ensures d in TakeAll(s0, ws).difs <==>
      exists i :: 0 <= i < |ws| && Changes(s0, ws, i, d.id) && d == UpdateOf(s0, ws[i], d.id)
  {
    if ws == [] {
    } else {
      var init, w := ws[..|ws| - 1], ws[|ws| - 1];
      assert ws == init + [w];
      UpdatesExactly(s0, init, d);
      RestUnnamed(s0, init);
      RestStored(s0, init);
      forall i | 0 <= i < |init| ensures Changes(s0, init, i, d.id) <==> Changes(s0, ws, i, d.id) {
        assert init[..i] == ws[..i] && init[i] == ws[i];
      }
      assert ws[..|init|] == init;
      TakeUpdates(TakeAll(s0, init), w, d);
    }
  }

  function UpdateOf(s0: Store, w: Wanted, id: string): Dif
    requires id in s0
  {
    Update(id, w, Compare(w.policy, s0[id].policy))
  }

  lemma TakeUpdates(p: Planned, w: Wanted, d: Dif)
    requires (w.avp ==> w.policy.id.Some?) && d.Update?
    ensures d in Take(p, w).difs <==>
      || d in p.difs
      || (&& w.avp && w.policy.id == Some(d.id) && d.id in p.rest && !IsTemplate(w)
          && !CompareEqual(w.policy, p.rest[d.id].policy) && d == UpdateOf(p.rest, w, d.id))
  {}

  lemma {:induction false} AskedExactly(difs: seq<Dif>, c: Call)
    ensures c in AllCalls(difs) <==> Leads(difs, c)
  {
    if difs == [] {
    } else {
      var init, d := difs[..|difs| - 1], difs[|difs| - 1];
      AskedExactly(init, c);
      assert forall i :: 0 <= i < |init| ==> difs[i] == init[i];
    }
  }

  /** Some entry asks for the call. */
  predicate Leads(difs: seq<Dif>, c: Call) {
    exists d :: d in difs && c in CallsOf(d)
  }

  lemma {:induction false} PlanDeletesNone(s0: Store, ws: seq<Wanted>)
    requires Identified(ws)
    ensures forall d :: d in TakeAll(s0, ws).difs ==> !d.Delete?
  {
    if ws == [] {
    } else {
      PlanDeletesNone(s0, ws[..|ws| - 1]);
    }
  }

  lemma UpdateAsks(d: Dif, id: string)
    requires d.Update?
    ensures forall p :: CreateCall(p) in CallsOf(d) <==>
      d.w.policy == p && (SUBJECT in d.difTypes || OBJECT in d.difTypes)
    ensures DeleteCall(Some(id)) in CallsOf(d) <==> d.id == id && (SUBJECT in d.difTypes || OBJECT in d.difTypes)
    ensures forall p :: UpdateCall(id, p) in CallsOf(d) <==>
      d.id == id && d.w.policy == p && SUBJECT !in d.difTypes && OBJECT !in d.difTypes
  {
    if SUBJECT in d.difTypes || OBJECT in d.difTypes {
      assert CallsOf(d)[0] == DeleteCall(Some(d.id)) && CallsOf(d)[1] == CreateCall(d.w.policy);
    } else {
      assert CallsOf(d)[0] == UpdateCall(d.id, d.w.policy);
    }
  }

  /** Deletions in the plan proper are halves of replacements. */
  lemma ReplacedExactly(s0: Store, ws: seq<Wanted>, id: string)
    requires Identified(ws)
    ensures Leads(TakeAll(s0, ws).difs, DeleteCall(Some(id))) <==> Replaced(s0, ws, id)
  {
    var difs := TakeAll(s0, ws).difs;
    PlanDeletesNone(s0, ws);
    if Leads(difs, DeleteCall(Some(id))) {
      var d :| d in difs && DeleteCall(Some(id)) in CallsOf(d);
      UpdateAsks(d, id);
      UpdatesExactly(s0, ws, d);
    }
    if Replaced(s0, ws, id) {
      var i :| 0 <= i < |ws| && Changes(s0, ws, i, id) && Moves(ws[i].policy, s0[id].policy);
      var d := UpdateOf(s0, ws[i], id);
      UpdatesExactly(s0, ws, d);
      UpdateAsks(d, id);
    }
  }

  lemma AmendedExactly(s0: Store, ws: seq<Wanted>, id: string, p: PolicyInfo)
    requires Identified(ws)
    ensures Leads(TakeAll(s0, ws).difs, UpdateCall(id, p)) <==> Amended(s0, ws, id, p)
  {
    var difs := TakeAll(s0, ws).difs;
    if Leads(difs, UpdateCall(id, p)) {
      var d :| d in difs && UpdateCall(id, p) in CallsOf(d);
      assert d.Update?;
      UpdateAsks(d, id);
      UpdatesExactly(s0, ws, d);
    }
    if Amended(s0, ws, id, p) {
      var i :| 0 <= i < |ws| && Changes(s0, ws, i, id) && !Moves(ws[i].policy, s0[id].policy) && ws[i].policy == p;
      var d := UpdateOf(s0, ws[i], id);
      UpdatesExactly(s0, ws, d);
      UpdateAsks(d, id);
    }
  }

  lemma CreatedExactly(s0: Store, ws: seq<Wanted>, p: PolicyInfo)
    requires Identified(ws)
    ensures Leads(TakeAll(s0, ws).difs, CreateCall(p)) <==> Created(s0, ws, p)
  {
    var difs := TakeAll(s0, ws).difs;
    if Leads(difs, CreateCall(p)) {
      var d :| d in difs && CreateCall(p) in CallsOf(d);
      if d.New? {
        NewsExactly(s0, ws, d.w);
        var i :| 0 <= i < |ws| && !NamesFirst(s0, ws, i) && !IsTemplate(ws[i]) && ws[i] == d.w;
        assert Creates(s0, ws, i);
      } else {
        assert d.Update?;
        UpdateAsks(d, d.id);
        UpdatesExactly(s0, ws, d);
        var i :| 0 <= i < |ws| && Changes(s0, ws, i, d.id) && d == UpdateOf(s0, ws[i], d.id);
        assert Creates(s0, ws, i);
      }
    }
    if i :| 0 <= i < |ws| && Creates(s0, ws, i) && ws[i].policy == p {
      CreationLeads(s0, ws, i);
    }
  }

  lemma CreationLeads(s0: Store, ws: seq<Wanted>, i: nat)
    requires Identified(ws) && i < |ws| && Creates(s0, ws, i)
    ensures Leads(TakeAll(s0, ws).difs, CreateCall(ws[i].policy))
  {
    if NamesFirst(s0, ws, i) {
      var d := UpdateOf(s0, ws[i], ws[i].policy.id.value);
      assert Changes(s0, ws, i, d.id);
      UpdatesExactly(s0, ws, d);
      UpdateAsks(d, d.id);
    } else {
      NewsExactly(s0, ws, ws[i]);
      assert CallsOf(New(ws[i]))[0] == CreateCall(ws[i].policy);
    }
  }

  lemma DeletesLead(dels: seq<Dif>, rest: Store, id: string)
    requires AreDeletes(dels, rest)
    ensures Leads(dels, DeleteCall(Some(id))) <==> id in rest && !rest[id].template
    ensures forall p :: !Leads(dels, UpdateCall(id, p)) && !Leads(dels, CreateCall(p))
  {
    if id in rest && !rest[id].template {
      var i :| 0 <= i < |dels| && dels[i].id == id;
      assert dels[i] in dels && CallsOf(dels[i])[0] == DeleteCall(Some(id));
    }
  }

  /** Main result about the calls of a run that succeeds. A stored policy is deleted exactly when the
      first request to name it has other subjects or another object, or when no request names it and
      it is not a template. It is updated in place, to what was asked, exactly when that request
      differs in something else alone. What compares EQUAL or is set aside is not touched. A policy is
      created exactly when a request for it, not a template, replaces what it names first or names
      first nothing stored. */
  lemma CallsExact(done: seq<Outcome>, s0: Store, ws: seq<Wanted>, id: string)
    requires Identified(ws) && CallsMade(done, s0, ws, true)
    ensures Asked(done, DeleteCall(Some(id))) <==>
      Replaced(s0, ws, id) || (id in s0 && !Names(ws, id) && !s0[id].template)
    ensures forall p :: Asked(done, UpdateCall(id, p)) <==> Amended(s0, ws, id, p)
    ensures forall p :: Asked(done, CreateCall(p)) <==> Created(s0, ws, p)
  {
    var dels :| AreDeletes(dels, TakeAll(s0, ws).rest) && Made(done, AllCalls(TakeAll(s0, ws).difs + dels), true);
    var difs := TakeAll(s0, ws).difs;
    MadeAsked(done, difs, dels, DeleteCall(Some(id)));
    ReplacedExactly(s0, ws, id);
    DeletesLead(dels, TakeAll(s0, ws).rest, id);
    RestUnnamed(s0, ws);
    RestStored(s0, ws);
    forall p ensures Asked(done, UpdateCall(id, p)) <==> Amended(s0, ws, id, p) {
      MadeAsked(done, difs, dels, UpdateCall(id, p));
      AmendedExactly(s0, ws, id, p);
    }
    forall p ensures Asked(done, CreateCall(p)) <==> Created(s0, ws, p) {
      MadeAsked(done, difs, dels, CreateCall(p));
      CreatedExactly(s0, ws, p);
    }
  }

  lemma MadeAsked(done: seq<Outcome>, difs: seq<Dif>, dels: seq<Dif>, c: Call)
    requires Made(done, AllCalls(difs + dels), true)
    ensures Asked(done, c) <==> Leads(difs, c) || Leads(dels, c)
  {
    var calls := AllCalls(difs + dels);
    AskedExactly(difs + dels, c);
    if c in calls {
      var i :| 0 <= i < |calls| && calls[i] == c;
      assert done[i].call == c;
    }
  }

  /** A creation, also the second half of a replacement. */
  method ReplayCreate(client: Client, w: Wanted, fails: bool, ghost s0: Store, ghost rest: seq<Dif>,
                      ghost pairs: seq<Pair>, ghost ws: seq<Wanted>) returns (ok: bool, ghost pairs': seq<Pair>)
    requires Books(client.store, s0, rest, pairs, ws) && rest != [] && rest[0] == New(w)
    modifies client
    ensures ok == !fails && (!ok ==> client.store == old(client.store))
    ensures ok ==> exists id ::
      id !in old(client.store) && client.store == old(client.store)[id := Stored(w.policy, false)]
    ensures ok ==> Books(client.store, s0, rest[1..], pairs', ws)
    ensures OldOrWanted(client.store, s0, ws)
    ensures MadeSince(old(client.calls), client.calls, [CreateCall(w.policy)], ok)
  {
    ghost var s := client.store;
    var id := client.CreatePolicy(w.policy, fails);
    pairs' := pairs;
    if id == None {
      return false, pairs;
    }
    pairs' := pairs + [Pair(id.value, w)];
    if TemplatesKept(s0, ws) {
      StepNew(s, s0, rest, pairs, Fixed(s0, ws), id.value);
      CountAdded(pairs, Pair(id.value, w), rest, multiset(Statics(ws)));
    }
    return true, pairs';
  }

  method ReplayDelete(client: Client, dif: Dif, fails: bool, ghost s0: Store, ghost rest: seq<Dif>,
                      ghost pairs: seq<Pair>, ghost ws: seq<Wanted>) returns (ok: bool)
    requires Books(client.store, s0, rest, pairs, ws) && rest != [] && rest[0] == dif && dif.Delete?
    modifies client
    ensures client.store == if ok then old(client.store) - {dif.id} else old(client.store)
    ensures ok ==> Books(client.store, s0, rest[1..], pairs, ws)
    ensures OldOrWanted(client.store, s0, ws)
    ensures !fails && TemplatesNamed(s0, ws) && TemplatesKept(s0, ws) ==> ok
    ensures MadeSince(old(client.calls), client.calls, CallsOf(dif), ok)
  {
    ghost var s := client.store;
    var deleteInput := PrepareDelete(dif.id, dif.stored.template);
    ok := client.DeletePolicy(deleteInput, fails);
    assert Pending(rest, dif.id);
    if TemplatesKept(s0, ws) && TemplatesNamed(s0, ws) && dif.stored.template {
      NamedSetAside(s0, ws, dif.id);
    }
    if ok && TemplatesKept(s0, ws) {
      StepDelete(s, s0, rest, pairs, Fixed(s0, ws));
    }
  }

  /** Subject or object differ: the stored policy is deleted and a new one created. */
  method ReplayReplace(client: Client, dif: Dif, fails1: bool, fails2: bool, ghost s0: Store,
                       ghost rest: seq<Dif>, ghost pairs: seq<Pair>, ghost ws: seq<Wanted>)
    returns (ok: bool, ghost pairs': seq<Pair>)
    requires Books(client.store, s0, rest, pairs, ws) && rest != [] && rest[0] == dif && dif.Update?
    modifies client
    ensures dif.id in old(client.store) && old(client.store)[dif.id].template ==> !ok
    ensures ok ==> Books(client.store, s0, rest[1..], pairs', ws)
    ensures OldOrWanted(client.store, s0, ws)
    ensures !fails1 && !fails2 && TemplatesKept(s0, ws) ==> ok
    ensures MadeSince(old(client.calls), client.calls, [DeleteCall(Some(dif.id)), CreateCall(dif.w.policy)], ok)
  {
    ghost var s := client.store;
    assert Pending(rest, dif.id);
    pairs' := pairs;
    ok := client.DeletePolicy(PrepareDelete(dif.id, false), fails1);
    if ok {
      ghost var rest' := [New(dif.w)] + rest[1..];
      assert rest'[1..] == rest[1..];
      if TemplatesKept(s0, ws) {
        StepReplace(s, s0, rest, pairs, Fixed(s0, ws));
        assert Coming(rest') == Coming(rest);
      }
      ok, pairs' := ReplayCreate(client, dif.w, fails2, s0, rest', pairs, ws);
    }
  }

  /** Only actions or condition differ: the stored policy is changed in place. */
  method ReplayInPlace(client: Client, dif: Dif, fails: bool, ghost s0: Store,
                       ghost rest: seq<Dif>, ghost pairs: seq<Pair>, ghost ws: seq<Wanted>)
    returns (ok: bool, ghost pairs': seq<Pair>)
    requires Books(client.store, s0, rest, pairs, ws) && rest != [] && rest[0] == dif && dif.Update?
    modifies client
    ensures dif.id in old(client.store) && old(client.store)[dif.id].template ==> !ok
    ensures client.store == if ok then old(client.store)[dif.id := Stored(dif.w.policy, false)] else old(client.store)
    ensures ok ==> Books(client.store, s0, rest[1..], pairs', ws)
    ensures OldOrWanted(client.store, s0, ws)
    ensures !fails && TemplatesKept(s0, ws) ==> ok
    ensures MadeSince(old(client.calls), client.calls, [UpdateCall(dif.id, dif.w.policy)], ok)
  {
    ghost var s := client.store;
    assert Pending(rest, dif.id);
    pairs' := pairs;
    ok := client.UpdatePolicy(dif.id, dif.w.policy, fails);
    if ok {
      pairs' := pairs + [Pair(dif.id, dif.w)];
      if TemplatesKept(s0, ws) {
        StepUpdate(s, s0, rest, pairs, Fixed(s0, ws));
        CountAdded(pairs, Pair(dif.id, dif.w), rest, multiset(Statics(ws)));
      }
    }
  }

  /** Updates come with the differences they answer, and no template is created. */
  predicate Replayable(difs: seq<Dif>) {
    && (forall i :: 0 <= i < |difs| && difs[i].Update? ==> difs[i].difTypes != [] && EQUAL !in difs[i].difTypes)
    && (forall i :: 0 <= i < |difs| && difs[i].New? ==> !IsTemplate(difs[i].w))
  }

  lemma {:induction false} PlanReplayable(s0: Store, ws: seq<Wanted>)
    requires Identified(ws)
    ensures Replayable(TakeAll(s0, ws).difs)
  {
    if ws == [] {
    } else {
      PlanReplayable(s0, ws[..|ws| - 1]);
    }
  }

  ghost predicate Faultless(faults: nat -> bool) {
    forall k :: !faults(k)
  }

  lemma SomeDifference(d: seq<Difference>)
    requires d != [] && EQUAL !in d
    ensures SUBJECT in d || OBJECT in d || ACTION in d || CONDITION in d
  {
    var x := d[0];
    assert x in d;
    assert x.EQUAL? || x.SUBJECT? || x.ACTION? || x.OBJECT? || x.CONDITION?;
  }

  method ReplayUpdate(client: Client, dif: Dif, fails1: bool, fails2: bool, ghost s0: Store,
                      ghost rest: seq<Dif>, ghost pairs: seq<Pair>, ghost ws: seq<Wanted>)
    returns (ok: bool, ghost pairs': seq<Pair>)
    requires Books(client.store, s0, rest, pairs, ws) && rest != [] && rest[0] == dif && dif.Update?
    requires dif.difTypes != [] && EQUAL !in dif.difTypes
    modifies client
    ensures dif.id in old(client.store) && old(client.store)[dif.id].template ==> !ok
    ensures ok && SUBJECT !in dif.difTypes && OBJECT !in dif.difTypes ==>
      client.store == old(client.store)[dif.id := Stored(dif.w.policy, false)]
    ensures SUBJECT in dif.difTypes || OBJECT in dif.difTypes ==>
      MadeSince(old(client.calls), client.calls, [DeleteCall(Some(dif.id)), CreateCall(dif.w.policy)], ok)
    ensures ok ==> Books(client.store, s0, rest[1..], pairs', ws)
    ensures OldOrWanted(client.store, s0, ws)
    ensures !fails1 && !fails2 && TemplatesKept(s0, ws) ==> ok
    ensures MadeSince(old(client.calls), client.calls, CallsOf(dif), ok)
  {
    pairs' := pairs;
    ok := true;
    SomeDifference(dif.difTypes);
    if SUBJECT in dif.difTypes || OBJECT in dif.difTypes {
      ok, pairs' := ReplayReplace(client, dif, fails1, fails2, s0, rest, pairs, ws);
    } else if ACTION in dif.difTypes || CONDITION in dif.difTypes {
      ok, pairs' := ReplayInPlace(client, dif, fails1, s0, rest, pairs, ws);
    }
  }

  /** One entry of the list; it makes at most two client calls. */
  method ReplayOne(client: Client, dif: Dif, fails1: bool, fails2: bool, ghost s0: Store,
                   ghost rest: seq<Dif>, ghost pairs: seq<Pair>, ghost ws: seq<Wanted>)
    returns (ok: bool, ghost pairs': seq<Pair>)
    requires Books(client.store, s0, rest, pairs, ws) && rest != [] && rest[0] == dif && Replayable([dif])
    modifies client
    ensures ok ==> Books(client.store, s0, rest[1..], pairs', ws)
    ensures OldOrWanted(client.store, s0, ws)
    ensures !fails1 && !fails2 && TemplatesNamed(s0, ws) && TemplatesKept(s0, ws) ==> ok
    ensures MadeSince(old(client.calls), client.calls, CallsOf(dif), ok)
  {
    assert [dif][0] == dif;
    pairs' := pairs;
    ok := true;
    match dif {
      case Ignore(_) =>
        if TemplatesKept(s0, ws) {
          StepSkip(client.store, s0, rest, pairs, Fixed(s0, ws));
        }
      case Matched(_, _) =>
        if TemplatesKept(s0, ws) {
          StepSkip(client.store, s0, rest, pairs, Fixed(s0, ws));
        }
      case New(w) =>
        if !IsTemplate(w) {
          ok, pairs' := ReplayCreate(client, w, fails1, s0, rest, pairs, ws);
        }
      case Delete(_, _) =>
        ok := ReplayDelete(client, dif, fails1, s0, rest, pairs, ws);
      case Update(_, _, _) =>
        ok, pairs' := ReplayUpdate(client, dif, fails1, fails2, s0, rest, pairs, ws);
    }
  }

  method ReplayAll(client: Client, difs: seq<Dif>, faults: nat -> bool, ghost s0: Store,
                   ghost kept: seq<Pair>, ghost ws: seq<Wanted>) returns (ok: bool, ghost pairs: seq<Pair>)
    requires Replayable(difs) && Books(client.store, s0, difs, kept, ws)
    modifies client
    ensures ok ==> Books(client.store, s0, [], pairs, ws)
    ensures OldOrWanted(client.store, s0, ws)
    ensures Faultless(faults) && TemplatesNamed(s0, ws) && TemplatesKept(s0, ws) ==> ok
    ensures MadeSince(old(client.calls), client.calls, AllCalls(difs), ok)
  {
    pairs := kept;
    assert difs[0..] == difs;
    ghost var before := client.calls;
    for i := 0 to |difs|
      invariant Books(client.store, s0, difs[i..], pairs, ws)
      invariant MadeSince(before, client.calls, AllCalls(difs[..i]), true)
    {
      ghost var rest, made := difs[i..], client.calls;
      Around(difs, i);
      ok, pairs := ReplayOne(client, difs[i], faults(2 * i), faults(2 * i + 1), s0, rest, pairs, ws);
      MadeStep(before, made, client.calls, difs[..i], difs[i], difs[i + 1..], ok);
      if !ok {
        return false, pairs;
      }
    }
    assert difs[|difs|..] == [] && difs[..|difs|] == difs;
    return true, pairs;
  }

  /** Main result. Whatever the request and whichever calls fail, everything stored at the end is
      old or wanted. Unless a stored template is first named by a request for a static policy, a run
      in which every call succeeds leaves the store in sync with the request - templates untouched,
      static policies one for one with the wanted static ones - exactly when the first request to
      name each stored policy says rightly whether it is a template; and without faults the run
      succeeds exactly when every stored template is named. `faults` says which client calls fail. */
  method SetPolicyInfo(client: Client, ws: seq<Wanted>, faults: nat -> bool) returns (ok: bool)
    requires Identified(ws)
    modifies client
    ensures OldOrWanted(client.store, old(client.store), ws)
    ensures ok && TemplatesKept(old(client.store), ws) ==>
      && TemplatesNamed(old(client.store), ws)
      && (InSync(client.store, old(client.store), ws) <==> KindsAgree(old(client.store), ws))
    ensures Faultless(faults) && TemplatesNamed(old(client.store), ws) && TemplatesKept(old(client.store), ws) ==> ok
    ensures old(client.calls) <= client.calls
    ensures CallsMade(client.calls[|old(client.calls)|..], old(client.store), ws, ok)
  {
    ghost var s0 := client.store;
    var differences := Reconcile(client.store, ws, true);
    ghost var planned := TakeAll(s0, ws).difs;
    ghost var dels := differences[|planned|..];
    assert differences == planned + dels;
    BooksStart(s0, ws, dels);
    PlanReplayable(s0, ws);
    ghost var pairs;
    ok, pairs := ReplayAll(client, differences, faults, s0, TakeAll(s0, ws).kept, ws);
    if ok && TemplatesKept(s0, ws) {
      LedgerExact(client.store, s0, pairs, ws);
    }
  }

  /** A stored policy that compares EQUAL to the first request to name it, a static one, is matched
      and left out of the plan: no entry names it, so a template in its place stays. */
  lemma {:induction false} EqualStays(s0: Store, ws: seq<Wanted>, i: nat)
    requires Identified(ws) && i < |ws| && NamesFirst(s0, ws, i) && !IsTemplate(ws[i])
    requires CompareEqual(ws[i].policy, s0[ws[i].policy.id.value].policy)
    ensures Pair(ws[i].policy.id.value, ws[i]) in TakeAll(s0, ws).kept
    ensures !Pending(TakeAll(s0, ws).difs, ws[i].policy.id.value)
    ensures ws[i].policy.id.value !in TakeAll(s0, ws).rest
  {
    var init, w, id := ws[..|ws| - 1], ws[|ws| - 1], ws[i].policy.id.value;
    assert ws == init + [w];
    RestUnnamed(s0, ws);
    RestUnnamed(s0, init);
    RestStored(s0, init);
    assert Names(ws, id);
    if i < |init| {
      assert init[..i] == ws[..i];
      EqualStays(s0, init, i);
      TakeOther(TakeAll(s0, init), w, id);
    } else {
      NothingPending(s0, init, id);
      PendingTake(TakeAll(s0, init), w, id);
    }
  }

  lemma {:induction false} RestStored(s0: Store, ws: seq<Wanted>)
    requires Identified(ws)
    ensures forall id :: id in TakeAll(s0, ws).rest ==> id in s0 && TakeAll(s0, ws).rest[id] == s0[id]
  {
    if ws == [] {
    } else {
      RestStored(s0, ws[..|ws| - 1]);
    }
  }

  /** No entry names a policy that no request names. */
  lemma {:induction false} NothingPending(s0: Store, ws: seq<Wanted>, id: string)
    requires Identified(ws) && !Names(ws, id)
    ensures !Pending(TakeAll(s0, ws).difs, id)
  {
    if ws == [] {
    } else {
      var init, w := ws[..|ws| - 1], ws[|ws| - 1];
      assert ws == init + [w];
      NamesSnoc(init, w);
      NothingPending(s0, init, id);
      TakeOther(TakeAll(s0, init), w, id);
    }
  }

  lemma PendingTake(p: Planned, w: Wanted, id: string)
    requires w.avp && w.policy.id == Some(id) && id in p.rest && !IsTemplate(w) && !Pending(p.difs, id)
    requires CompareEqual(w.policy, p.rest[id].policy)
    ensures Take(p, w) == p.(kept := p.kept + [Pair(id, w)], rest := p.rest - {id})
  {}

  /** A request that does not take the policy out of the rest plans nothing for it. */
  lemma TakeOther(p: Planned, w: Wanted, id: string)
    requires (w.avp ==> w.policy.id.Some?) && !Pending(p.difs, id)
    requires w.avp && w.policy.id == Some(id) ==> id !in p.rest
    ensures !Pending(Take(p, w).difs, id)
    ensures forall pair :: pair in p.kept ==> pair in Take(p, w).kept
  {
    PendingSnocs(p.difs, Ignore(w));
    PendingSnocs(p.difs, New(w));
    if w.avp && w.policy.id.value in p.rest {
      PendingSnocs(p.difs, Update(w.policy.id.value, w, Compare(w.policy, p.rest[w.policy.id.value].policy)));
    }
  }

  /** Why the kinds must be right: a request that calls a stored static policy a template plans no
      call at all, and the policy stays although nothing static was asked for. */
  lemma MislabelledStays(id: string, p: PolicyInfo, w: Wanted)
    requires w.avp && w.policy.id == Some(id) && IsTemplate(w)
    ensures var s := map[id := Stored(p, false)];
      TakeAll(s, [w]).difs == [Ignore(w)] && TakeAll(s, [w]).rest == map[]
      && !InSync(s, s, [w])
  {
    var s := map[id := Stored(p, false)];
    assert [w][..0] == [];
    assert TakeAll(s, []) == Planned([], [], s);
    assert Statics([]) == [];
    assert Statics([w]) == [];
    forall pairs: seq<Pair> ensures !Settled(s, s, [w], pairs) {
      if Paired(pairs, id) {
        var i :| 0 <= i < |pairs| && pairs[i].id == id;
        assert Seconds(pairs)[i] in multiset(Seconds(pairs));
      }
      assert id in s && !s[id].template;
    }
  }
}
