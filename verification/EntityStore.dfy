/** GetEntityDescendents: the transitive closure of the child relation, computed with a worklist
    that grows while it is read. The parent graph may have cycles and duplicates. */
module EntityStore {
  import opened Collections
  import opened Idql

  datatype Entity = Entity(id: string, parents: seq<string>)

  // ----- the closure

  ghost predicate Child(base: seq<Entity>, p: string, c: string) {
    exists i :: 0 <= i < |base| && base[i].id == c && p in base[i].parents
  }

  ghost predicate IsPath(base: seq<Entity>, path: seq<string>) {
    path != [] && forall i :: 0 <= i < |path| - 1 ==> Child(base, path[i], path[i + 1])
  }

  /** `x` is a starting identifier or a descendant of one. */
  ghost predicate Reachable(base: seq<Entity>, start: seq<string>, x: string) {
    exists path :: IsPath(base, path) && path[0] in start && path[|path| - 1] == x
  }

  ghost predicate Closed(base: seq<Entity>, s: set<string>) {
    forall p, c :: p in s && Child(base, p, c) ==> c in s
  }

  lemma ReachableStart(base: seq<Entity>, start: seq<string>, x: string)
    requires x in start
    ensures Reachable(base, start, x)
  {
    assert IsPath(base, [x]);
  }

  lemma ReachableStep(base: seq<Entity>, start: seq<string>, p: string, c: string)
    requires Reachable(base, start, p) && Child(base, p, c)
    ensures Reachable(base, start, c)
  {
    var path :| IsPath(base, path) && path[0] in start && path[|path| - 1] == p;
    var longer := path + [c];
    assert IsPath(base, longer);
    assert longer[0] in start && longer[|longer| - 1] == c;
  }

  /** What is reachable lies in every closed set that holds the start: it is the least one. */
  lemma {:induction false} ReachableLeast(base: seq<Entity>, s: set<string>, path: seq<string>)
    requires Closed(base, s) && IsPath(base, path) && path[0] in s
    ensures path[|path| - 1] in s
    decreases |path|
  {
    if |path| == 1 {
    } else {
      var init := path[..|path| - 1];
      assert IsPath(base, init);
      ReachableLeast(base, s, init);
      assert Child(base, path[|path| - 2], path[|path| - 2 + 1]);
    }
  }

  // ----- what is stored under an identifier: the last entity that carries it

  function Stored(base: seq<Entity>, id: string): Option<Entity> {
    if base == [] then None
    else if base[|base| - 1].id == id then Some(base[|base| - 1])
    else Stored(base[..|base| - 1], id)
  }

  lemma {:induction false} StoredExactly(base: seq<Entity>, id: string)
    ensures Stored(base, id).Some? <==> exists i :: 0 <= i < |base| && base[i].id == id
    ensures Stored(base, id).Some? ==> Stored(base, id).value in base && Stored(base, id).value.id == id
    ensures forall i :: 0 <= i < |base| && base[i].id == id && (forall j :: i < j < |base| ==> base[j].id != id) ==>
      Stored(base, id) == Some(base[i])
  {
    if base == [] {
    } else {
      StoredExactly(base[..|base| - 1], id);
      if i :| 0 <= i < |base| && base[i].id == id && base[|base| - 1].id != id {
        assert base[..|base| - 1][i].id == id;
      }
    }
  }

  method Contains(s: seq<string>, str: string) returns (b: bool)
    ensures b <==> str in s
  {
    for i := 0 to |s|
      invariant str !in s[..i]
    {
      if s[i] == str {
        return true;
      }
    }
    return false;
  }

  function Ids(base: seq<Entity>): set<string> {
    set e | e in base :: e.id
  }

  /** The two inner loops: children of `parent` join the worklist, and the entity stored under
      `parent` joins the findings. */
  method Visit(base: seq<Entity>, parent: string, worklist: seq<string>, found0: map<string, Entity>)
    returns (parents: seq<string>, found: map<string, Entity>)
    ensures worklist <= parents
    ensures forall c :: Child(base, parent, c) ==> c in parents
    ensures forall x :: x in parents && x !in worklist ==> Child(base, parent, x)
    ensures |parents| > |worklist| ==> Ids(base) - Elements(parents) < Ids(base) - Elements(worklist)
    ensures found == if Stored(base, parent).Some? then found0[parent := Stored(base, parent).value] else found0
  {
    parents, found := worklist, found0;
    for j := 0 to |base|
      invariant worklist <= parents
      invariant forall c :: Child(base[..j], parent, c) ==> c in parents
      invariant forall x :: x in parents && x !in worklist ==> Child(base[..j], parent, x)
      invariant |parents| > |worklist| ==> exists x :: x in parents && x !in worklist
      invariant found ==
        if Stored(base[..j], parent).Some? then found0[parent := Stored(base[..j], parent).value] else found0
    {
      var baseEntity := base[j];
      assert base[..j + 1][..j] == base[..j];
      assert base[..j + 1][j] == baseEntity;
      ghost var before := parents;
      for k := 0 to |baseEntity.parents|
        invariant before <= parents
        invariant parent in baseEntity.parents[..k] ==> baseEntity.id in parents
        invariant parents == before || (parents == before + [baseEntity.id] && parent in baseEntity.parents)
        invariant parents != before ==> baseEntity.id !in before
      {
        if baseEntity.parents[k] == parent {
          var known := Contains(parents, baseEntity.id);
          if !known {
            parents := parents + [baseEntity.id];
          }
        }
      }
      assert baseEntity.parents[..|baseEntity.parents|] == baseEntity.parents;
      if baseEntity.id == parent {
        found := found[baseEntity.id := baseEntity];
      }
      VisitOne(base, j, parent, before, parents, worklist);
    }
    assert base[..|base|] == base;
    if |parents| > |worklist| {
      var x :| x in parents && x !in worklist;
      assert Child(base, parent, x);
      assert x in Ids(base) - Elements(worklist) && x !in Ids(base) - Elements(parents);
    }
  }

  /** One more entity of the base has been scanned. */
  lemma VisitOne(base: seq<Entity>, j: nat, parent: string, before: seq<string>, parents: seq<string>,
                 worklist: seq<string>)
    requires j < |base| && worklist <= before <= parents
    requires forall c :: Child(base[..j], parent, c) ==> c in before
    requires forall x :: x in before && x !in worklist ==> Child(base[..j], parent, x)
    requires parent in base[j].parents ==> base[j].id in parents
    requires parents == before || (parents == before + [base[j].id] && parent in base[j].parents)
    ensures forall c :: Child(base[..j + 1], parent, c) ==> c in parents
    ensures forall x :: x in parents && x !in worklist ==> Child(base[..j + 1], parent, x)
  {
    forall c | Child(base[..j + 1], parent, c) ensures c in parents {
      var i :| 0 <= i < j + 1 && base[..j + 1][i].id == c && parent in base[..j + 1][i].parents;
      if i < j {
        assert base[..j][i] == base[..j + 1][i];
      }
    }
    forall x | x in parents && x !in worklist ensures Child(base[..j + 1], parent, x) {
      if x in before {
        var i :| 0 <= i < j && base[..j][i].id == x && parent in base[..j][i].parents;
        assert base[..j + 1][i] == base[..j][i];
      } else {
        assert base[..j + 1][j].id == x;
      }
    }
  }

  ghost predicate AllReachable(base: seq<Entity>, start: seq<string>, parents: seq<string>) {
    forall x :: x in parents ==> Reachable(base, start, x)
  }

  /** The first `i` identifiers have all their children on the worklist. */
  ghost predicate Processed(base: seq<Entity>, parents: seq<string>, i: nat)
    requires i <= |parents|
  {
    forall p, c :: p in parents[..i] && Child(base, p, c) ==> c in parents
  }

  ghost predicate Findings(base: seq<Entity>, visited: seq<string>, found: map<string, Entity>) {
    && (forall x :: x in found <==> x in visited && Stored(base, x).Some?)
    && (forall x :: x in found ==> Some(found[x]) == Stored(base, x))
  }

  lemma FindingsExact(base: seq<Entity>, visited: seq<string>, found: map<string, Entity>)
    requires Findings(base, visited, found)
    ensures forall x :: x in found <==> x in visited && x in Ids(base)
  {
    forall x ensures x in found <==> x in visited && x in Ids(base) {
      StoredExactly(base, x);
    }
  }

  lemma VisitKeeps(base: seq<Entity>, start: seq<string>, worklist: seq<string>, parents: seq<string>, i: nat)
    requires i < |worklist| && worklist <= parents
    requires AllReachable(base, start, worklist) && Processed(base, worklist, i)
    requires forall c :: Child(base, worklist[i], c) ==> c in parents
    requires forall x :: x in parents && x !in worklist ==> Child(base, worklist[i], x)
    ensures AllReachable(base, start, parents) && Processed(base, parents, i + 1)
  {
    forall x | x in parents ensures Reachable(base, start, x) {
      if x !in worklist {
        ReachableStep(base, start, worklist[i], x);
      }
    }
    assert parents[..i + 1] == worklist[..i] + [worklist[i]];
  }

  /** The store: a reader whose contents are parsed once and then kept. */
  class Store {
    var reader: Option<seq<Entity>>   // None: not valid JSON
    var entities: Option<seq<Entity>>

    ghost predicate Valid()
      reads this
    {
      entities.Some? ==> entities == reader
    }

    constructor (r: Option<seq<Entity>>)
      ensures Valid() && reader == r && entities == None
    {
      reader, entities := r, None;
    }

    method GetEntities() returns (r: Option<seq<Entity>>)
      requires Valid()
      modifies this`entities
      ensures Valid() && r == reader && entities == reader
    {
      if entities == None {
        entities := reader;
      }
      r := entities;
    }

    /** Returns, by identifier, exactly the stored entities that are reachable from `start`. */
    method GetEntityDescendents(start: seq<string>) returns (r: Option<map<string, Entity>>)
      requires Valid()
      modifies this`entities
      ensures Valid()
      ensures r.Some? <==> reader.Some?
      ensures r.Some? ==>
        && (forall x :: x in r.value <==> Reachable(reader.value, start, x) && x in Ids(reader.value))
        && (forall x :: x in r.value ==> Some(r.value[x]) == Stored(reader.value, x))
    {
      var base0 := GetEntities();
      if base0 == None {
        return None;
      }
      var base := base0.value;
      var parents := start;
      var found: map<string, Entity> := map[];
      var i := 0;
      forall x | x in start ensures Reachable(base, start, x) {
        ReachableStart(base, start, x);
      }
      while i < |parents|
        invariant Valid() && reader == base0
        invariant i <= |parents| && start <= parents
        invariant AllReachable(base, start, parents)
        invariant Processed(base, parents, i)
        invariant Findings(base, parents[..i], found)
        decreases Ids(base) - Elements(parents), |parents| - i
      {
        var parent := parents[i];
        var worklist := parents;
        parents, found := Visit(base, parent, worklist, found);
        VisitKeeps(base, start, worklist, parents, i);
        assert parents[..i + 1] == worklist[..i] + [parent];
        i := i + 1;
      }
      CompleteClosure(base, start, parents);
      assert parents[..i] == parents;
      FindingsExact(base, parents, found);
      r := Some(found);
    }
  }

  /** A worklist read to its end holds everything reachable. */
  lemma CompleteClosure(base: seq<Entity>, start: seq<string>, parents: seq<string>)
    requires start <= parents
    requires Processed(base, parents, |parents|)
    ensures forall x :: Reachable(base, start, x) ==> x in parents
  {
    var s := Elements(parents);
    assert parents[..|parents|] == parents;
    assert Closed(base, s);
    forall x | Reachable(base, start, x) ensures x in parents {
      var path :| IsPath(base, path) && path[0] in start && path[|path| - 1] == x;
      assert path[0] in parents;
      ReachableLeast(base, s, path);
    }
  }
}
