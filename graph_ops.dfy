/**
 * The graph transformations behind the mutating operations of `KnowledgeGraphManager`
 * (src/graph/manager.ts:83-153 and 358-416), as functions from the loaded graph to the graph
 * that is saved, together with what each of them guarantees.
 */
module GraphOps {
  import opened Wrappers
  import opened KnowledgeGraph
  import opened Store

  // ================================================================ lookups

  /** `entities.find(e => e.name === name)`: the index of the first entity with that name. */
  function FindEntity(es: seq<Entity>, name: string): (r: Option<nat>)
    ensures r.Some? ==> r.value < |es| && es[r.value].name == name
    ensures r.Some? ==> forall j :: 0 <= j < r.value ==> es[j].name != name
    ensures r.None? <==> !HasName(es, name)
  {
    if es == [] then None
    else if es[0].name == name then Some(0)
    else
      match FindEntity(es[1..], name)
      case None =>
        assert forall j :: 1 <= j < |es| ==> es[j] == es[1..][j - 1];
        None
      case Some(i) => Some(i + 1)
  }

  /** `relations.find(...)` on the key triple: the index of the first relation with that key. */
  function FindRelation(rs: seq<Relation>, key: Relation): (r: Option<nat>)
    ensures r.Some? ==> r.value < |rs| && SameKey(rs[r.value], key)
    ensures r.Some? ==> forall j :: 0 <= j < r.value ==> !SameKey(rs[j], key)
    ensures r.None? <==> !HasKey(rs, key)
  {
    if rs == [] then None
    else if SameKey(rs[0], key) then Some(0)
    else
      match FindRelation(rs[1..], key)
      case None =>
        assert forall j :: 1 <= j < |rs| ==> rs[j] == rs[1..][j - 1];
        None
      case Some(i) => Some(i + 1)
  }

  /** Two entity lists that differ at most in observations, index by index. */
  predicate SameShape(es: seq<Entity>, es': seq<Entity>)
  {
    |es'| == |es| &&
    forall j :: 0 <= j < |es| ==>
      es'[j].name == es[j].name && es'[j].entityType == es[j].entityType &&
      es'[j].createdAt == es[j].createdAt && es'[j].version == es[j].version
  }

  // ================================================================ create

  /** `{...e, createdAt: now, version: e.version || 1}`. */
  function Stamp(e: Entity, now: string): Entity
  {
    e.(createdAt := now, version := if e.version == 0 then 1 else e.version)
  }

  function StampRelation(r: Relation, now: string): Relation
  {
    r.(createdAt := now, version := if r.version == 0 then 1 else r.version)
  }

  /**
   * The entities `createEntities` adds and returns: the batch entities whose name is not
   * already stored, in batch order, stamped. The batch is not checked against itself.
   */
  function NewEntities(stored: seq<Entity>, batch: seq<Entity>, now: string): (r: seq<Entity>)
    ensures |r| <= |batch|
    ensures forall x :: x in r ==> exists b :: b in batch && !HasName(stored, b.name) && x == Stamp(b, now)
    ensures forall b :: b in batch && !HasName(stored, b.name) ==> Stamp(b, now) in r
  {
    if batch == [] then []
    else
      var rest := NewEntities(stored, batch[1..], now);
      assert forall b :: b in batch[1..] ==> b in batch;
      assert forall b :: b in batch ==> b == batch[0] || b in batch[1..];
      if HasName(stored, batch[0].name) then rest else [Stamp(batch[0], now)] + rest
  }

  /** The relations `createRelations` adds and returns, keyed on `(from, to, relationType)`. */
  function NewRelations(stored: seq<Relation>, batch: seq<Relation>, now: string): (r: seq<Relation>)
    ensures |r| <= |batch|
    ensures forall x :: x in r ==> exists b :: b in batch && !HasKey(stored, b) && x == StampRelation(b, now)
    ensures forall b :: b in batch && !HasKey(stored, b) ==> StampRelation(b, now) in r
  {
    if batch == [] then []
    else
      var rest := NewRelations(stored, batch[1..], now);
      assert forall b :: b in batch[1..] ==> b in batch;
      assert forall b :: b in batch ==> b == batch[0] || b in batch[1..];
      if HasKey(stored, batch[0]) then rest else [StampRelation(batch[0], now)] + rest
  }

  /** Every returned entity carries `createdAt = now` and a non-zero version. */
  lemma NewEntitiesStamped(stored: seq<Entity>, batch: seq<Entity>, now: string)
    ensures forall x :: x in NewEntities(stored, batch, now) ==> x.createdAt == now && x.version != 0
  {
  }

  lemma {:induction false} NewEntitiesInOrder(stored: seq<Entity>, batch: seq<Entity>, now: string)
    ensures Subsequence(NewEntities(stored, batch, now), StampAll(batch, now))
  {
    if batch != [] {
      NewEntitiesInOrder(stored, batch[1..], now);
      var rest := NewEntities(stored, batch[1..], now);
      var all := StampAll(batch, now);
      assert all[1..] == StampAll(batch[1..], now);
      if HasName(stored, batch[0].name) {
        SubsequenceSkip(rest, all);
      } else {
        assert ([Stamp(batch[0], now)] + rest)[1..] == rest;
      }
    }
  }

  /** `batch.map(e => stamp(e))`: every batch entity stamped, position by position. */
  function StampAll(batch: seq<Entity>, now: string): (r: seq<Entity>)
    ensures |r| == |batch|
    ensures forall k :: 0 <= k < |batch| ==> r[k] == Stamp(batch[k], now)
  {
    if batch == [] then [] else [Stamp(batch[0], now)] + StampAll(batch[1..], now)
  }

  /**
   * A batch entity whose name is stored is created zero times; any other is created as often as
   * the stamped batch holds it, so `[b, b]` with a new name creates two copies.
   */
  lemma {:induction false} NewEntitiesCounts(stored: seq<Entity>, batch: seq<Entity>, now: string, x: Entity)
    ensures multiset(NewEntities(stored, batch, now))[x] ==
      if HasName(stored, x.name) then 0 else multiset(StampAll(batch, now))[x]
  {
    if batch != [] {
      var rest := NewEntities(stored, batch[1..], now);
      var all := StampAll(batch, now);
      NewEntitiesCounts(stored, batch[1..], now, x);
      assert all[1..] == StampAll(batch[1..], now);
      HeadCount(all, x);
      if !HasName(stored, batch[0].name) {
        var added := [Stamp(batch[0], now)] + rest;
        assert NewEntities(stored, batch, now) == added;
        HeadCount(added, x);
        assert added[1..] == rest;
      }
    }
  }

  /** The relation counterpart of `NewEntitiesCounts`, on keys. */
  lemma {:induction false} NewRelationsCounts(stored: seq<Relation>, batch: seq<Relation>, now: string, x: Relation)
    ensures multiset(NewRelations(stored, batch, now))[x] ==
      if HasKey(stored, x) then 0 else multiset(StampAllRelations(batch, now))[x]
  {
    if batch != [] {
      var rest := NewRelations(stored, batch[1..], now);
      var all := StampAllRelations(batch, now);
      NewRelationsCounts(stored, batch[1..], now, x);
      assert all[1..] == StampAllRelations(batch[1..], now);
      HeadCount(all, x);
      if HasKey(stored, batch[0]) {
        if all[0] == x {
          var i :| 0 <= i < |stored| && SameKey(stored[i], batch[0]);
          assert SameKey(stored[i], x);
        }
      } else {
        var added := [StampRelation(batch[0], now)] + rest;
        assert NewRelations(stored, batch, now) == added;
        HeadCount(added, x);
        assert added[1..] == rest;
        if all[0] == x {
          assert !HasKey(stored, x) by {
            forall i | 0 <= i < |stored| ensures !SameKey(stored[i], x) {
              assert !SameKey(stored[i], batch[0]);
            }
          }
        }
      }
    }
  }

  lemma {:induction false} NoNewEntities(stored: seq<Entity>, batch: seq<Entity>, now: string)
    requires forall b :: b in batch ==> HasName(stored, b.name)
    ensures NewEntities(stored, batch, now) == []
  {
    if batch != [] {
      assert batch[0] in batch;
      NoNewEntities(stored, batch[1..], now);
    }
  }

  lemma {:induction false} NoNewRelations(stored: seq<Relation>, batch: seq<Relation>, now: string)
    requires forall b :: b in batch ==> HasKey(stored, b)
    ensures NewRelations(stored, batch, now) == []
  {
    if batch != [] {
      assert batch[0] in batch;
      NoNewRelations(stored, batch[1..], now);
    }
  }

  /** Calling `createEntities` again with the same names adds and returns nothing. */
  lemma CreateEntitiesIdempotent(stored: seq<Entity>, batch: seq<Entity>, now: string, later: string)
    ensures NewEntities(stored + NewEntities(stored, batch, now), batch, later) == []
  {
    var added := NewEntities(stored, batch, now);
    forall b | b in batch ensures HasName(stored + added, b.name) {
      if HasName(stored, b.name) {
        var i :| 0 <= i < |stored| && stored[i].name == b.name;
        assert (stored + added)[i] == stored[i];
      } else {
        assert Stamp(b, now) in added;
        var k :| 0 <= k < |added| && added[k] == Stamp(b, now);
        assert (stored + added)[|stored| + k] == added[k];
      }
    }
    NoNewEntities(stored + added, batch, later);
  }

  /** Calling `createRelations` again with the same keys adds and returns nothing. */
  lemma CreateRelationsIdempotent(stored: seq<Relation>, batch: seq<Relation>, now: string, later: string)
    ensures NewRelations(stored + NewRelations(stored, batch, now), batch, later) == []
  {
    var added := NewRelations(stored, batch, now);
    forall b | b in batch ensures HasKey(stored + added, b) {
      if HasKey(stored, b) {
        var i :| 0 <= i < |stored| && SameKey(stored[i], b);
        assert (stored + added)[i] == stored[i];
      } else {
        assert StampRelation(b, now) in added;
        var k :| 0 <= k < |added| && added[k] == StampRelation(b, now);
        assert (stored + added)[|stored| + k] == added[k];
      }
    }
    NoNewRelations(stored + added, batch, later);
  }

  /** Names stay unique after `createEntities` when the batch itself has distinct names. */
  lemma {:induction false} CreateEntitiesKeepsUnique(stored: seq<Entity>, batch: seq<Entity>, now: string)
    requires UniqueNames(stored) && UniqueNames(batch)
    ensures UniqueNames(stored + NewEntities(stored, batch, now))
  {
    var added := NewEntities(stored, batch, now);
    var all := stored + added;
    NewEntitiesUnique(stored, batch, now);
    forall i, j | 0 <= i < j < |all| ensures all[i].name != all[j].name {
      if j >= |stored| {
        assert all[j] == added[j - |stored|] && all[j] in added;
        if i < |stored| {
          assert all[i] == stored[i];
        } else {
          assert all[i] == added[i - |stored|];
        }
      }
    }
  }

  lemma {:induction false} NewEntitiesUnique(stored: seq<Entity>, batch: seq<Entity>, now: string)
    requires UniqueNames(batch)
    ensures UniqueNames(NewEntities(stored, batch, now))
  {
    if batch != [] {
      var rest := NewEntities(stored, batch[1..], now);
      assert UniqueNames(batch[1..]) by {
        forall i, j | 0 <= i < j < |batch[1..]| ensures batch[1..][i].name != batch[1..][j].name {
          assert batch[1..][i] == batch[i + 1] && batch[1..][j] == batch[j + 1];
        }
      }
      NewEntitiesUnique(stored, batch[1..], now);
      if !HasName(stored, batch[0].name) {
        forall j | 0 <= j < |rest| ensures Stamp(batch[0], now).name != rest[j].name {
          NewEntitiesHeadFresh(stored, batch, now, j);
        }
        ConsUniqueNames(Stamp(batch[0], now), rest);
      }
    }
  }

  /** With distinct batch names, no entity created from the later items shares the first item's name. */
  lemma NewEntitiesHeadFresh(stored: seq<Entity>, batch: seq<Entity>, now: string, j: nat)
    requires UniqueNames(batch) && batch != []
    requires j < |NewEntities(stored, batch[1..], now)|
    ensures Stamp(batch[0], now).name != NewEntities(stored, batch[1..], now)[j].name
  {
    var x := NewEntities(stored, batch[1..], now)[j];
    NewEntitiesFromBatch(stored, batch[1..], now, x);
    var k :| 0 <= k < |batch[1..]| && x.name == batch[1..][k].name;
    assert batch[1..][k] == batch[k + 1];
  }

  /** Every created entity carries the name of some batch item. */
  lemma NewEntitiesFromBatch(stored: seq<Entity>, batch: seq<Entity>, now: string, x: Entity)
    requires x in NewEntities(stored, batch, now)
    ensures exists k :: 0 <= k < |batch| && x.name == batch[k].name
  {
    var b :| b in batch && !HasName(stored, b.name) && x == Stamp(b, now);
    var k :| 0 <= k < |batch| && batch[k] == b;
    assert x.name == batch[k].name;
  }

  lemma {:induction false} NewRelationsInOrder(stored: seq<Relation>, batch: seq<Relation>, now: string)
    ensures Subsequence(NewRelations(stored, batch, now), StampAllRelations(batch, now))
  {
    if batch != [] {
      NewRelationsInOrder(stored, batch[1..], now);
      var rest := NewRelations(stored, batch[1..], now);
      var all := StampAllRelations(batch, now);
      assert all[1..] == StampAllRelations(batch[1..], now);
      if HasKey(stored, batch[0]) {
        SubsequenceSkip(rest, all);
      } else {
        assert ([StampRelation(batch[0], now)] + rest)[1..] == rest;
      }
    }
  }

  function StampAllRelations(batch: seq<Relation>, now: string): (r: seq<Relation>)
    ensures |r| == |batch|
    ensures forall k :: 0 <= k < |batch| ==> r[k] == StampRelation(batch[k], now)
  {
    if batch == [] then [] else [StampRelation(batch[0], now)] + StampAllRelations(batch[1..], now)
  }

  /** Keys stay unique after `createRelations` when the batch itself has distinct keys. */
  lemma {:induction false} CreateRelationsKeepsUnique(stored: seq<Relation>, batch: seq<Relation>, now: string)
    requires UniqueKeys(stored) && UniqueKeys(batch)
    ensures UniqueKeys(stored + NewRelations(stored, batch, now))
  {
    var added := NewRelations(stored, batch, now);
    var all := stored + added;
    NewRelationsUnique(stored, batch, now);
    forall i, j | 0 <= i < j < |all| ensures !SameKey(all[i], all[j]) {
      if j >= |stored| {
        assert all[j] == added[j - |stored|] && all[j] in added;
        if i < |stored| {
          assert all[i] == stored[i];
        } else {
          assert all[i] == added[i - |stored|];
        }
      }
    }
  }

  lemma {:induction false} NewRelationsUnique(stored: seq<Relation>, batch: seq<Relation>, now: string)
    requires UniqueKeys(batch)
    ensures UniqueKeys(NewRelations(stored, batch, now))
  {
    if batch != [] {
      var rest := NewRelations(stored, batch[1..], now);
      assert UniqueKeys(batch[1..]) by {
        forall i, j | 0 <= i < j < |batch[1..]| ensures !SameKey(batch[1..][i], batch[1..][j]) {
          assert batch[1..][i] == batch[i + 1] && batch[1..][j] == batch[j + 1];
        }
      }
      NewRelationsUnique(stored, batch[1..], now);
      if !HasKey(stored, batch[0]) {
        forall j | 0 <= j < |rest| ensures !SameKey(StampRelation(batch[0], now), rest[j]) {
          NewRelationsHeadFresh(stored, batch, now, j);
        }
        ConsUniqueKeys(StampRelation(batch[0], now), rest);
      }
    }
  }

  /** With distinct batch keys, no relation created from the later items shares the first item's key. */
  lemma NewRelationsHeadFresh(stored: seq<Relation>, batch: seq<Relation>, now: string, j: nat)
    requires UniqueKeys(batch) && batch != []
    requires j < |NewRelations(stored, batch[1..], now)|
    ensures !SameKey(StampRelation(batch[0], now), NewRelations(stored, batch[1..], now)[j])
  {
    var x := NewRelations(stored, batch[1..], now)[j];
    NewRelationsFromBatch(stored, batch[1..], now, x);
    var k :| 0 <= k < |batch[1..]| && SameKey(x, batch[1..][k]);
    assert batch[1..][k] == batch[k + 1];
  }

  /** A list with unique names stays so when it gains a head whose name it does not hold. */
  lemma ConsUniqueNames(x: Entity, rest: seq<Entity>)
    requires UniqueNames(rest) && forall j :: 0 <= j < |rest| ==> x.name != rest[j].name
    ensures UniqueNames([x] + rest)
  {
    var r := [x] + rest;
    forall i, j | 0 <= i < j < |r| ensures r[i].name != r[j].name {
      assert r[j] == rest[j - 1];
      if i > 0 {
        assert r[i] == rest[i - 1];
      }
    }
  }

  /** A list with unique keys stays so when it gains a head whose key it does not hold. */
  lemma ConsUniqueKeys(x: Relation, rest: seq<Relation>)
    requires UniqueKeys(rest) && forall j :: 0 <= j < |rest| ==> !SameKey(x, rest[j])
    ensures UniqueKeys([x] + rest)
  {
    var r := [x] + rest;
    forall i, j | 0 <= i < j < |r| ensures !SameKey(r[i], r[j]) {
      assert r[j] == rest[j - 1];
      if i > 0 {
        assert r[i] == rest[i - 1];
      }
    }
  }

  /** Every created relation carries the key of some batch item. */
  lemma NewRelationsFromBatch(stored: seq<Relation>, batch: seq<Relation>, now: string, x: Relation)
    requires x in NewRelations(stored, batch, now)
    ensures exists k :: 0 <= k < |batch| && SameKey(x, batch[k])
  {
    var b :| b in batch && !HasKey(stored, b) && x == StampRelation(b, now);
    var k :| 0 <= k < |batch| && batch[k] == b;
    assert SameKey(x, batch[k]);
  }


  // ================================================================ observations

  /** One item of `addObservations`' argument. */
  datatype ObservationAddition = ObservationAddition(entityName: string, contents: seq<string>)

  /** One item of `addObservations`' result. */
  datatype AddedObservations = AddedObservations(entityName: string, addedObservations: seq<string>)

  /** One item of `deleteObservations`' argument. */
  datatype ObservationDeletion = ObservationDeletion(entityName: string, observations: seq<string>)

  /**
   * `contents.filter(c => !observations.includes(c))`: the contents not yet observed, in order;
   * a string repeated in `contents` is kept every time.
   */
  function Unobserved(observations: seq<string>, contents: seq<string>): (r: seq<string>)
    ensures |r| <= |contents|
    ensures forall c :: c in r <==> c in contents && c !in observations
    ensures Subsequence(r, contents)
  {
    if contents == [] then []
    else
      var rest := Unobserved(observations, contents[1..]);
      assert forall c :: c in contents <==> c == contents[0] || c in contents[1..];
      if contents[0] in observations then rest else [contents[0]] + rest
  }

  /**
   * A content already observed is never added; any other is added as many times as `contents`
   * lists it, so a string listed twice is pushed twice.
   */
  lemma {:induction false} UnobservedCounts(observations: seq<string>, contents: seq<string>, c: string)
    ensures multiset(Unobserved(observations, contents))[c] == if c in observations then 0 else multiset(contents)[c]
  {
    if contents != [] {
      var rest := Unobserved(observations, contents[1..]);
      UnobservedCounts(observations, contents[1..], c);
      assert multiset(contents) == multiset{contents[0]} + multiset(contents[1..]) by {
        assert contents == [contents[0]] + contents[1..];
      }
      if contents[0] !in observations {
        assert Unobserved(observations, contents) == [contents[0]] + rest;
        assert multiset([contents[0]] + rest) == multiset{contents[0]} + multiset(rest);
      }
    }
  }

  /** The observations left after removing every occurrence of the strings in `deleted`. */
  function RemoveObservations(observations: seq<string>, deleted: seq<string>): (r: seq<string>)
    ensures |r| <= |observations|
    ensures forall o :: o in r <==> o in observations && o !in deleted
    ensures Subsequence(r, observations)
  {
    if observations == [] then []
    else
      var rest := RemoveObservations(observations[1..], deleted);
      assert forall o :: o in observations <==> o == observations[0] || o in observations[1..];
      if observations[0] in deleted then rest else [observations[0]] + rest
  }

  /** A listed observation loses every occurrence; any other keeps all of its occurrences. */
  lemma {:induction false} RemoveObservationsCounts(observations: seq<string>, deleted: seq<string>, o: string)
    ensures multiset(RemoveObservations(observations, deleted))[o] == if o in deleted then 0 else multiset(observations)[o]
  {
    if observations != [] {
      var rest := RemoveObservations(observations[1..], deleted);
      RemoveObservationsCounts(observations[1..], deleted, o);
      assert multiset(observations) == multiset{observations[0]} + multiset(observations[1..]) by {
        assert observations == [observations[0]] + observations[1..];
      }
      if observations[0] !in deleted {
        assert RemoveObservations(observations, deleted) == [observations[0]] + rest;
        assert multiset([observations[0]] + rest) == multiset{observations[0]} + multiset(rest);
      }
    }
  }

  /**
   * One item of `addObservations`: the first entity with that name gets the unobserved
   * contents appended, or the call fails with "Entity with name … not found".
   */
  function AddObservationsTo(es: seq<Entity>, item: ObservationAddition): (r: Result<(seq<Entity>, AddedObservations), Failure>)
    ensures r.Err? <==> !HasName(es, item.entityName)
    ensures r.Err? ==> r.error == EntityNotFound(item.entityName)
    ensures r.Ok? ==> SameShape(es, r.value.0) && r.value.1.entityName == item.entityName
  {
    match FindEntity(es, item.entityName)
    case None => Err(EntityNotFound(item.entityName))
    case Some(i) =>
      var added := Unobserved(es[i].observations, item.contents);
      Ok((es[i := es[i].(observations := es[i].observations + added)], AddedObservations(item.entityName, added)))
  }

  /**
   * A successful item appends to the first entity of that name exactly the contents it did not
   * already hold (every appended string was absent before), and touches no other entity.
   */
  lemma AddObservationsToSpec(es: seq<Entity>, item: ObservationAddition)
    requires HasName(es, item.entityName)
    ensures var (es', result) := AddObservationsTo(es, item).value;
      var i := FindEntity(es, item.entityName).value;
      es'[i].observations == es[i].observations + result.addedObservations &&
      (forall c :: c in result.addedObservations <==> c in item.contents && c !in es[i].observations) &&
      Subsequence(result.addedObservations, item.contents) &&
      (forall c :: multiset(result.addedObservations)[c] ==
        if c in es[i].observations then 0 else multiset(item.contents)[c]) &&
      (forall j :: 0 <= j < |es| && j != i ==> es'[j] == es[j])
  {
    var i := FindEntity(es, item.entityName).value;
    forall c {
      UnobservedCounts(es[i].observations, item.contents, c);
    }
  }

  /** Every item of the batch names a stored entity. */
  predicate AllStored(es: seq<Entity>, batch: seq<ObservationAddition>)
  {
    forall k :: 0 <= k < |batch| ==> HasName(es, batch[k].entityName)
  }

  lemma AllStoredSplit(es: seq<Entity>, batch: seq<ObservationAddition>)
    requires batch != []
    ensures AllStored(es, batch) <==>
      AllStored(es, batch[..|batch| - 1]) && HasName(es, batch[|batch| - 1].entityName)
  {
    var n := |batch| - 1;
    assert forall k :: 0 <= k < n ==> batch[..n][k] == batch[k];
  }

  lemma SameShapeTrans(a: seq<Entity>, b: seq<Entity>, c: seq<Entity>)
    requires SameShape(a, b) && SameShape(b, c)
    ensures SameShape(a, c)
  {
  }

  /**
   * `addObservations` over the whole batch, item after item (later items see the observations
   * earlier items appended); the first item naming a missing entity aborts the batch.
   */
  function AddObservations(es: seq<Entity>, batch: seq<ObservationAddition>): Result<(seq<Entity>, seq<AddedObservations>), Failure>
  {
    if batch == [] then Ok((es, []))
    else
      match AddObservations(es, batch[..|batch| - 1])
      case Err(e) => Err(e)
      case Ok((before, results)) =>
        match AddObservationsTo(before, batch[|batch| - 1])
        case Err(e) => Err(e)
        case Ok((after, added)) => Ok((after, results + [added]))
  }

  /**
   * `addObservations` fails exactly when some item names an entity that is not stored; when it
   * succeeds only observations change, and there is one result per item.
   */
  lemma {:induction false} AddObservationsSpec(es: seq<Entity>, batch: seq<ObservationAddition>)
    ensures var r := AddObservations(es, batch);
      (r.Ok? <==> AllStored(es, batch)) &&
      (r.Ok? ==> SameShape(es, r.value.0) && |r.value.1| == |batch|)
  {
    if batch != [] {
      var n := |batch| - 1;
      AllStoredSplit(es, batch);
      AddObservationsSpec(es, batch[..n]);
      var prior := AddObservations(es, batch[..n]);
      if prior.Ok? {
        var before := prior.value.0;
        FindEntityNames(es, before, batch[n].entityName);
        var step := AddObservationsTo(before, batch[n]);
        if step.Ok? {
          SameShapeTrans(es, before, step.value.0);
        }
      }
    }
  }

  /** The fold over the first `k + 1` items is the fold over the first `k`, then item `k`. */
  lemma AddObservationsNext(es: seq<Entity>, batch: seq<ObservationAddition>, k: nat)
    requires k < |batch| && AddObservations(es, batch[..k]).Ok?
    ensures var (before, results) := AddObservations(es, batch[..k]).value;
      AddObservations(es, batch[..k + 1]) ==
        match AddObservationsTo(before, batch[k])
        case Err(e) => Err(e)
        case Ok((after, added)) => Ok((after, results + [added]))
  {
    assert batch[..k + 1][..k] == batch[..k];
  }

  /** A successful `addObservations` returns one result per item; result `k` names item `k`'s entity. */
  lemma {:induction false} AddObservationsResults(es: seq<Entity>, batch: seq<ObservationAddition>, k: nat)
    requires AddObservations(es, batch).Ok? && k < |batch|
    ensures |AddObservations(es, batch).value.1| == |batch|
    ensures AddObservations(es, batch).value.1[k].entityName == batch[k].entityName
  {
    var n := |batch| - 1;
    var results := AddObservationsStep(es, batch);
    if k < n {
      AddObservationsResults(es, batch[..n], k);
    }
  }

  /**
   * One step of a successful `addObservations`: the results of the batch are those of all but
   * its last item, followed by the last item's result.
   */
  lemma AddObservationsStep(es: seq<Entity>, batch: seq<ObservationAddition>) returns (results: seq<AddedObservations>)
    requires batch != [] && AddObservations(es, batch).Ok?
    ensures AddObservations(es, batch[..|batch| - 1]).Ok?
    ensures results == AddObservations(es, batch[..|batch| - 1]).value.1
    ensures |results| == |batch| - 1 && |AddObservations(es, batch).value.1| == |batch|
    ensures AddObservations(es, batch).value.1 == results + [AddObservations(es, batch).value.1[|batch| - 1]]
    ensures AddObservations(es, batch).value.1[|batch| - 1].entityName == batch[|batch| - 1].entityName
  {
    var n := |batch| - 1;
    AddObservationsSpec(es, batch[..n]);
    results := AddObservations(es, batch[..n]).value.1;
  }

  /** One step of a successful `addObservations`, on the entities. */
  lemma AddObservationsStepEntities(es: seq<Entity>, batch: seq<ObservationAddition>)
    requires batch != [] && AddObservations(es, batch).Ok?
    ensures AddObservations(es, batch[..|batch| - 1]).Ok?
    ensures AddObservationsTo(AddObservations(es, batch[..|batch| - 1]).value.0, batch[|batch| - 1]).Ok?
    ensures AddObservations(es, batch).value.0 ==
      AddObservationsTo(AddObservations(es, batch[..|batch| - 1]).value.0, batch[|batch| - 1]).value.0
  {
    AllStoredSplit(es, batch);
  }

  /**
   * When `addObservations` succeeds, each entity's old observations are a prefix of its new
   * ones, and an entity no item names is unchanged.
   */
  lemma {:induction false} AddObservationsGrow(es: seq<Entity>, batch: seq<ObservationAddition>)
    requires AddObservations(es, batch).Ok?
    ensures var es' := AddObservations(es, batch).value.0;
      |es'| == |es| &&
      (forall j :: 0 <= j < |es| ==> es[j].observations <= es'[j].observations) &&
      (forall j :: 0 <= j < |es| && (forall k :: 0 <= k < |batch| ==> batch[k].entityName != es[j].name) ==>
        es'[j] == es[j])
  {
    if batch != [] {
      var n := |batch| - 1;
      var prefix := batch[..n];
      AddObservationsStepEntities(es, batch);
      AddObservationsGrow(es, prefix);
      var before := AddObservations(es, prefix).value.0;
      var es' := AddObservations(es, batch).value.0;
      AddObservationsToGrow(before, batch[n]);
      forall j | 0 <= j < |es| ensures es[j].observations <= es'[j].observations {
        PrefixTrans(es[j].observations, before[j].observations, es'[j].observations);
      }
      forall j | 0 <= j < |es| && (forall k :: 0 <= k < |batch| ==> batch[k].entityName != es[j].name)
        ensures es'[j] == es[j]
      {
        assert forall k :: 0 <= k < n ==> prefix[k] == batch[k];
        assert batch[n].entityName != es[j].name;
      }
    }
  }

  /** One successful item only appends, and only to an entity of the item's name. */
  lemma AddObservationsToGrow(es: seq<Entity>, item: ObservationAddition)
    requires AddObservationsTo(es, item).Ok?
    ensures var es' := AddObservationsTo(es, item).value.0;
      |es'| == |es| &&
      (forall j :: 0 <= j < |es| ==> es[j].observations <= es'[j].observations) &&
      (forall j :: 0 <= j < |es| && es[j].name != item.entityName ==> es'[j] == es[j])
  {
    AddObservationsToSpec(es, item);
  }

  /** Once a prefix of the batch fails, the whole batch fails with that same error. */
  lemma AddObservationsErrExtends(es: seq<Entity>, batch: seq<ObservationAddition>, m: nat)
    requires m <= |batch| && AddObservations(es, batch[..m]).Err?
    ensures AddObservations(es, batch) == AddObservations(es, batch[..m])
  {
    var failed := AddObservations(es, batch[..m]);
    for j := m to |batch|
      invariant AddObservations(es, batch[..j]) == failed
    {
      AddObservationsNextErr(es, batch, j);
    }
    assert batch[..|batch|] == batch;
  }

  /** A failed prefix stays failed, with the same error, when one more item is added. */
  lemma AddObservationsNextErr(es: seq<Entity>, batch: seq<ObservationAddition>, k: nat)
    requires k < |batch| && AddObservations(es, batch[..k]).Err?
    ensures AddObservations(es, batch[..k + 1]) == AddObservations(es, batch[..k])
  {
    assert batch[..k + 1][..k] == batch[..k];
  }

  /**
   * When the first `k` items succeed and item `k` names no entity, the whole batch fails with
   * "Entity with name … not found" for that item.
   */
  lemma AddObservationsStops(es: seq<Entity>, batch: seq<ObservationAddition>, k: nat)
    requires k < |batch| && AddObservations(es, batch[..k]).Ok?
    requires !HasName(AddObservations(es, batch[..k]).value.0, batch[k].entityName)
    ensures AddObservations(es, batch) == Err(EntityNotFound(batch[k].entityName))
  {
    assert batch[..k + 1][..k] == batch[..k];
    assert AddObservations(es, batch[..k + 1]) == Err(EntityNotFound(batch[k].entityName));
    AddObservationsErrExtends(es, batch, k + 1);
  }

  lemma PrefixTrans(a: seq<string>, b: seq<string>, c: seq<string>)
    requires a <= b && b <= c
    ensures a <= c
  {
    assert c[..|a|] == c[..|b|][..|a|];
  }

  /**
   * `deleteObservations`' item: the first entity with that name loses every occurrence of the
   * listed strings; a missing name is skipped.
   */
  function DeleteObservationsFrom(es: seq<Entity>, item: ObservationDeletion): (r: seq<Entity>)
    ensures SameShape(es, r)
  {
    match FindEntity(es, item.entityName)
    case None => es
    case Some(i) => es[i := es[i].(observations := RemoveObservations(es[i].observations, item.observations))]
  }

  /** One deletion item only ever takes observations away. */
  lemma DeleteObservationsFromShrinks(es: seq<Entity>, item: ObservationDeletion)
    ensures forall j, o :: 0 <= j < |es| && o in DeleteObservationsFrom(es, item)[j].observations ==> o in es[j].observations
  {
  }

  /** `deleteObservations` over the whole batch, item after item; it never fails. */
  function DeleteObservations(es: seq<Entity>, batch: seq<ObservationDeletion>): (r: seq<Entity>)
    ensures SameShape(es, r)
  {
    if batch == [] then es
    else DeleteObservationsFrom(DeleteObservations(es, batch[..|batch| - 1]), batch[|batch| - 1])
  }

  /** Deleting for the first `k + 1` items is deleting for the first `k`, then item `k`. */
  lemma DeleteObservationsNext(es: seq<Entity>, batch: seq<ObservationDeletion>, k: nat)
    requires k < |batch|
    ensures DeleteObservations(es, batch[..k + 1]) == DeleteObservationsFrom(DeleteObservations(es, batch[..k]), batch[k])
  {
    assert batch[..k + 1][..k] == batch[..k];
  }

  /**
   * `deleteObservations` only ever removes observations, and an entity no item names is
   * unchanged.
   */
  lemma {:induction false} DeleteObservationsShrink(es: seq<Entity>, batch: seq<ObservationDeletion>)
    ensures var es' := DeleteObservations(es, batch);
      SameShape(es, es') &&
      (forall j, o :: 0 <= j < |es| && o in es'[j].observations ==> o in es[j].observations) &&
      (forall j :: 0 <= j < |es| && (forall k :: 0 <= k < |batch| ==> batch[k].entityName != es[j].name) ==>
        es'[j] == es[j])
  {
    if batch != [] {
      var n := |batch| - 1;
      var prefix := batch[..n];
      DeleteObservationsShrink(es, prefix);
      var before := DeleteObservations(es, prefix);
      var es' := DeleteObservations(es, batch);
      assert es' == DeleteObservationsFrom(before, batch[n]);
      DeleteObservationsFromShrinks(before, batch[n]);
      forall j, o | 0 <= j < |es| && o in es'[j].observations ensures o in es[j].observations {
        assert o in before[j].observations;
      }
      forall j | 0 <= j < |es| && (forall k :: 0 <= k < |batch| ==> batch[k].entityName != es[j].name)
        ensures es'[j] == es[j]
      {
        assert forall k :: 0 <= k < n ==> prefix[k] == batch[k];
        assert batch[n].entityName != es[j].name;
      }
    }
  }

  /** The first entity of the item's name loses the listed strings; no other entity changes. */
  lemma DeleteObservationsFromSpec(es: seq<Entity>, item: ObservationDeletion)
    requires HasName(es, item.entityName)
    ensures var i := FindEntity(es, item.entityName).value;
      var es' := DeleteObservationsFrom(es, item);
      es'[i].observations == RemoveObservations(es[i].observations, item.observations) &&
      (forall o :: o in es'[i].observations ==> o !in item.observations) &&
      (forall j :: 0 <= j < |es| && j != i ==> es'[j] == es[j])
  {
  }

  /** None of `observations` is among `absent`. */
  predicate Lacks(observations: seq<string>, absent: seq<string>)
  {
    forall o :: o in observations ==> o !in absent
  }

  /**
   * After `deleteObservations`, an entity found for some item holds none of that item's
   * strings: item `k` removes them, and no later item brings one back.
   */
  lemma DeleteObservationsRemoves(es: seq<Entity>, batch: seq<ObservationDeletion>, k: nat)
    requires k < |batch| && HasName(es, batch[k].entityName)
    ensures Lacks(DeleteObservations(es, batch)[FindEntity(es, batch[k].entityName).value].observations, batch[k].observations)
  {
    var i := FindEntity(es, batch[k].entityName).value;
    var absent := batch[k].observations;
    var before := DeleteObservations(es, batch[..k]);
    FindEntityNames(es, before, batch[k].entityName);
    DeleteStepRemoves(before, batch[k], i);
    DeleteObservationsNext(es, batch, k);
    for m := k + 1 to |batch|
      invariant Lacks(DeleteObservations(es, batch[..m])[i].observations, absent)
    {
      DeleteObservationsNext(es, batch, m);
      DeleteStepKeepsAbsent(DeleteObservations(es, batch[..m]), batch[m], i, absent);
    }
    assert batch[..|batch|] == batch;
  }

  /** The entity found for a deletion item keeps none of the item's strings. */
  lemma DeleteStepRemoves(es: seq<Entity>, item: ObservationDeletion, i: nat)
    requires FindEntity(es, item.entityName) == Some(i)
    ensures i < |es| && Lacks(DeleteObservationsFrom(es, item)[i].observations, item.observations)
  {
    DeleteObservationsFromSpec(es, item);
  }

  /** One more deletion item never brings an observation back. */
  lemma DeleteStepKeepsAbsent(es: seq<Entity>, item: ObservationDeletion, i: nat, absent: seq<string>)
    requires i < |es| && Lacks(es[i].observations, absent)
    ensures Lacks(DeleteObservationsFrom(es, item)[i].observations, absent)
  {
    DeleteObservationsFromShrinks(es, item);
  }

  // ================================================================ delete

  /** `entities.filter(e => !names.includes(e.name))`. */
  function KeepEntities(es: seq<Entity>, names: seq<string>): (r: seq<Entity>)
    ensures forall e :: e in r <==> e in es && e.name !in names
    ensures Subsequence(r, es)
  {
    if es == [] then []
    else
      var rest := KeepEntities(es[1..], names);
      assert forall e :: e in es <==> e == es[0] || e in es[1..];
      if es[0].name in names then rest else [es[0]] + rest
  }

  /** A named entity loses every copy; any other keeps all of its copies. */
  lemma {:induction false} KeepEntitiesCounts(es: seq<Entity>, names: seq<string>, e: Entity)
    ensures multiset(KeepEntities(es, names))[e] == if e.name in names then 0 else multiset(es)[e]
  {
    if es != [] {
      var rest := KeepEntities(es[1..], names);
      KeepEntitiesCounts(es[1..], names, e);
      HeadCount(es, e);
      if es[0].name !in names {
        var kept := [es[0]] + rest;
        assert KeepEntities(es, names) == kept;
        HeadCount(kept, e);
        assert kept[1..] == rest;
      }
    }
  }

  /** `relations.filter(r => !names.includes(r.from) && !names.includes(r.to))`. */
  function KeepRelations(rs: seq<Relation>, names: seq<string>): (r: seq<Relation>)
    ensures forall x :: x in r <==> x in rs && x.from !in names && x.to !in names
    ensures Subsequence(r, rs)
  {
    if rs == [] then []
    else
      var rest := KeepRelations(rs[1..], names);
      assert forall x :: x in rs <==> x == rs[0] || x in rs[1..];
      if rs[0].from in names || rs[0].to in names then rest else [rs[0]] + rest
  }

  /** A relation touching a name loses every copy; any other keeps all of its copies. */
  lemma {:induction false} KeepRelationsCounts(rs: seq<Relation>, names: seq<string>, x: Relation)
    ensures multiset(KeepRelations(rs, names))[x] ==
      if x.from in names || x.to in names then 0 else multiset(rs)[x]
  {
    if rs != [] {
      var rest := KeepRelations(rs[1..], names);
      KeepRelationsCounts(rs[1..], names, x);
      HeadCount(rs, x);
      if !(rs[0].from in names || rs[0].to in names) {
        var kept := [rs[0]] + rest;
        assert KeepRelations(rs, names) == kept;
        HeadCount(kept, x);
        assert kept[1..] == rest;
      }
    }
  }

  /** `deleteEntities`: the named entities go, and with them every relation touching a name. */
  function DeleteEntities(g: Graph, names: seq<string>): (r: Graph)
    ensures forall e :: e in r.entities <==> e in g.entities && e.name !in names
    ensures forall x :: x in r.relations <==> x in g.relations && x.from !in names && x.to !in names
  {
    Graph(KeepEntities(g.entities, names), KeepRelations(g.relations, names))
  }

  /** Deleting names no entity and no relation mentions leaves the graph as it was. */
  lemma {:induction false} DeleteAbsentNames(g: Graph, names: seq<string>)
    requires forall e :: e in g.entities ==> e.name !in names
    requires forall r :: r in g.relations ==> r.from !in names && r.to !in names
    ensures DeleteEntities(g, names) == g
  {
    KeepAllEntities(g.entities, names);
    KeepAllRelations(g.relations, names);
  }

  lemma {:induction false} KeepAllEntities(es: seq<Entity>, names: seq<string>)
    requires forall e :: e in es ==> e.name !in names
    ensures KeepEntities(es, names) == es
  {
    if es != [] {
      assert es[0] in es;
      KeepAllEntities(es[1..], names);
      assert [es[0]] + es[1..] == es;
    }
  }

  lemma {:induction false} KeepAllRelations(rs: seq<Relation>, names: seq<string>)
    requires forall r :: r in rs ==> r.from !in names && r.to !in names
    ensures KeepRelations(rs, names) == rs
  {
    if rs != [] {
      assert rs[0] in rs;
      KeepAllRelations(rs[1..], names);
      assert [rs[0]] + rs[1..] == rs;
    }
  }

  /** `deleteRelations`: keeps exactly the relations whose key matches no item of the batch. */
  function KeepUnmatched(rs: seq<Relation>, batch: seq<Relation>): (r: seq<Relation>)
    ensures forall x :: x in r <==> x in rs && !HasKey(batch, x)
    ensures Subsequence(r, rs)
  {
    if rs == [] then []
    else
      var rest := KeepUnmatched(rs[1..], batch);
      assert forall x :: x in rs <==> x == rs[0] || x in rs[1..];
      if HasKey(batch, rs[0]) then rest else [rs[0]] + rest
  }

  /** A relation matching a batch key loses every copy; any other keeps all of its copies. */
  lemma {:induction false} KeepUnmatchedCounts(rs: seq<Relation>, batch: seq<Relation>, x: Relation)
    ensures multiset(KeepUnmatched(rs, batch))[x] == if HasKey(batch, x) then 0 else multiset(rs)[x]
  {
    if rs != [] {
      var rest := KeepUnmatched(rs[1..], batch);
      KeepUnmatchedCounts(rs[1..], batch, x);
      HeadCount(rs, x);
      if !HasKey(batch, rs[0]) {
        var kept := [rs[0]] + rest;
        assert KeepUnmatched(rs, batch) == kept;
        HeadCount(kept, x);
        assert kept[1..] == rest;
      }
    }
  }

  /** A subsequence of a list with unique names (keys) has unique names (keys). */
  lemma {:induction false} SubsequenceUniqueNames(a: seq<Entity>, b: seq<Entity>)
    requires Subsequence(a, b) && UniqueNames(b)
    ensures UniqueNames(a)
    decreases |b|
  {
    if a != [] {
      if a[0] == b[0] && Subsequence(a[1..], b[1..]) {
        SubsequenceUniqueNames(a[1..], b[1..]);
        forall j | 0 < j < |a| ensures a[0].name != a[j].name {
          assert a[j] == a[1..][j - 1] && a[j] in a[1..];
          SubsequenceMembers(a[1..], b[1..], a[j]);
          var k :| 0 <= k < |b[1..]| && b[1..][k] == a[j];
          assert b[k + 1] == a[j];
        }
        forall i, j | 0 < i < j < |a| ensures a[i].name != a[j].name {
          assert a[i] == a[1..][i - 1] && a[j] == a[1..][j - 1];
        }
      } else {
        SubsequenceUniqueNames(a, b[1..]);
      }
    }
  }

  lemma {:induction false} SubsequenceUniqueKeys(a: seq<Relation>, b: seq<Relation>)
    requires Subsequence(a, b) && UniqueKeys(b)
    ensures UniqueKeys(a)
    decreases |b|
  {
    if a != [] {
      if a[0] == b[0] && Subsequence(a[1..], b[1..]) {
        SubsequenceUniqueKeys(a[1..], b[1..]);
        forall j | 0 < j < |a| ensures !SameKey(a[0], a[j]) {
          assert a[j] == a[1..][j - 1] && a[j] in a[1..];
          SubsequenceMembers(a[1..], b[1..], a[j]);
          var k :| 0 <= k < |b[1..]| && b[1..][k] == a[j];
          assert b[k + 1] == a[j];
        }
        forall i, j | 0 < i < j < |a| ensures !SameKey(a[i], a[j]) {
          assert a[i] == a[1..][i - 1] && a[j] == a[1..][j - 1];
        }
      } else {
        SubsequenceUniqueKeys(a, b[1..]);
      }
    }
  }

  /** `deleteEntities` keeps the graph well formed and leaves nothing that mentions a deleted name. */
  lemma DeleteEntitiesSpec(g: Graph, names: seq<string>)
    requires WellFormed(g)
    ensures var g' := DeleteEntities(g, names);
      WellFormed(g') &&
      (forall i :: 0 <= i < |g'.entities| ==> g'.entities[i].name !in names) &&
      (forall i :: 0 <= i < |g'.relations| ==> g'.relations[i].from !in names && g'.relations[i].to !in names)
  {
    var g' := DeleteEntities(g, names);
    SubsequenceUniqueNames(g'.entities, g.entities);
    SubsequenceUniqueKeys(g'.relations, g.relations);
    assert forall i :: 0 <= i < |g'.entities| ==> g'.entities[i] in g'.entities;
    assert forall i :: 0 <= i < |g'.relations| ==> g'.relations[i] in g'.relations;
  }

  // ================================================================ update

  /** One item of `updateEntities`' argument: the name, and the fields to overwrite. */
  datatype EntityUpdate = EntityUpdate(name: string, entityType: Option<string>, observations: Option<seq<string>>)

  /** `{...existing, ...update, version: existing.version + 1, createdAt: now}`. */
  function Overlay(existing: Entity, u: EntityUpdate, now: string): Entity
  {
    Entity(
      u.name,
      if u.entityType.Some? then u.entityType.value else existing.entityType,
      if u.observations.Some? then u.observations.value else existing.observations,
      now,
      existing.version + 1)
  }

  /** The relation overlay: an update item matches on the key, so only version and createdAt change. */
  function OverlayRelation(existing: Relation, now: string): Relation
  {
    existing.(createdAt := now, version := existing.version + 1)
  }

  /**
   * First pass of `updateEntities` (the `map`): every item's updated record, computed from the
   * stored entity with that name; the first missing name fails the whole batch.
   */
  function UpdatedEntities(es: seq<Entity>, batch: seq<EntityUpdate>, now: string): (r: Result<seq<Entity>, Failure>)
    ensures r.Err? <==> exists k :: 0 <= k < |batch| && !HasName(es, batch[k].name)
    ensures r.Ok? ==> |r.value| == |batch| && forall k :: 0 <= k < |batch| ==>
      var old_ := es[FindEntity(es, batch[k].name).value];
      r.value[k].name == batch[k].name && r.value[k].version == old_.version + 1 &&
      r.value[k].createdAt == now &&
      r.value[k].entityType == (if batch[k].entityType.Some? then batch[k].entityType.value else old_.entityType) &&
      r.value[k].observations == (if batch[k].observations.Some? then batch[k].observations.value else old_.observations)
  {
    if batch == [] then Ok([])
    else
      match FindEntity(es, batch[0].name)
      case None => Err(EntityNotFound(batch[0].name))
      case Some(i) =>
        var rest :- UpdatedEntities(es, batch[1..], now);
        assert forall k :: 1 <= k < |batch| ==> batch[k] == batch[1..][k - 1];
        Ok([Overlay(es[i], batch[0], now)] + rest)
  }

  /** The first missing name decides the error: `Entity with name ${name} not found` for that name. */
  lemma {:induction false} UpdatedEntitiesStops(es: seq<Entity>, batch: seq<EntityUpdate>, now: string, k: nat)
    requires k < |batch| && !HasName(es, batch[k].name)
    requires forall j :: 0 <= j < k ==> HasName(es, batch[j].name)
    ensures UpdatedEntities(es, batch, now) == Err(EntityNotFound(batch[k].name))
  {
    if k > 0 {
      assert HasName(es, batch[0].name);
      assert batch[1..][k - 1] == batch[k];
      assert forall j :: 0 <= j < k - 1 ==> batch[1..][j] == batch[j + 1];
      UpdatedEntitiesStops(es, batch[1..], now, k - 1);
    }
  }

  /**
   * First pass of `updateRelations`: every item's updated record, computed from the stored
   * relation with that key; the first missing key fails the whole batch with "Relation not found".
   */
  function UpdatedRelations(rs: seq<Relation>, batch: seq<Relation>, now: string): (r: Result<seq<Relation>, Failure>)
    ensures r.Err? <==> exists k :: 0 <= k < |batch| && !HasKey(rs, batch[k])
    ensures r.Err? ==> r.error == RelationNotFound
    ensures r.Ok? ==> |r.value| == |batch| && forall k :: 0 <= k < |batch| ==>
      var old_ := rs[FindRelation(rs, batch[k]).value];
      SameKey(r.value[k], batch[k]) && r.value[k].version == old_.version + 1 && r.value[k].createdAt == now
  {
    if batch == [] then Ok([])
    else
      match FindRelation(rs, batch[0])
      case None => Err(RelationNotFound)
      case Some(i) =>
        var rest :- UpdatedRelations(rs, batch[1..], now);
        assert forall k :: 1 <= k < |batch| ==> batch[k] == batch[1..][k - 1];
        Ok([OverlayRelation(rs[i], now)] + rest)
  }

  /**
   * Second pass of `updateEntities`: each updated record overwrites the first entity of its
   * name. The list keeps its length and every position keeps its name.
   */
  function ApplyEntityUpdates(es: seq<Entity>, updated: seq<Entity>): (r: seq<Entity>)
    ensures |r| == |es| && forall j :: 0 <= j < |es| ==> r[j].name == es[j].name
  {
    if updated == [] then es
    else
      var before := ApplyEntityUpdates(es, updated[..|updated| - 1]);
      var u := updated[|updated| - 1];
      match FindEntity(before, u.name)
      case None => before
      case Some(i) => before[i := u]
  }

  /**
   * Second pass of `updateRelations`: each updated record overwrites the first relation of its
   * key. The list keeps its length and every position keeps its key.
   */
  function ApplyRelationUpdates(rs: seq<Relation>, updated: seq<Relation>): (r: seq<Relation>)
    ensures |r| == |rs| && forall j :: 0 <= j < |rs| ==> SameKey(r[j], rs[j])
  {
    if updated == [] then rs
    else
      var before := ApplyRelationUpdates(rs, updated[..|updated| - 1]);
      var u := updated[|updated| - 1];
      match FindRelation(before, u)
      case None => before
      case Some(i) => before[i := u]
  }

  /** Applying the first `k + 1` updated records is applying the first `k`, then record `k`. */
  lemma ApplyEntityUpdatesNext(es: seq<Entity>, updated: seq<Entity>, k: nat)
    requires k < |updated|
    ensures var before := ApplyEntityUpdates(es, updated[..k]);
      ApplyEntityUpdates(es, updated[..k + 1]) ==
        match FindEntity(before, updated[k].name)
        case None => before
        case Some(i) => before[i := updated[k]]
  {
    assert updated[..k + 1][..k] == updated[..k];
  }

  /** The same for relations. */
  lemma ApplyRelationUpdatesNext(rs: seq<Relation>, updated: seq<Relation>, k: nat)
    requires k < |updated|
    ensures var before := ApplyRelationUpdates(rs, updated[..k]);
      ApplyRelationUpdates(rs, updated[..k + 1]) ==
        match FindRelation(before, updated[k])
        case None => before
        case Some(i) => before[i := updated[k]]
  {
    assert updated[..k + 1][..k] == updated[..k];
  }

  /** An entity whose name no updated record carries is left as it was. */
  lemma {:induction false} ApplyEntityUpdatesUnmentioned(es: seq<Entity>, updated: seq<Entity>, j: nat)
    requires j < |es| && !HasName(updated, es[j].name)
    ensures ApplyEntityUpdates(es, updated)[j] == es[j]
  {
    if updated != [] {
      var n := |updated| - 1;
      assert updated[n].name != es[j].name;
      assert !HasName(updated[..n], es[j].name) by {
        forall m | 0 <= m < n ensures updated[..n][m].name != es[j].name {
          assert updated[..n][m] == updated[m];
        }
      }
      ApplyEntityUpdatesUnmentioned(es, updated[..n], j);
    }
  }

  /** The first entity of a name carried by exactly one updated record becomes that record. */
  lemma {:induction false} ApplyEntityUpdatesLands(es: seq<Entity>, updated: seq<Entity>, k: nat)
    requires k < |updated| && HasName(es, updated[k].name)
    requires forall m :: 0 <= m < |updated| && m != k ==> updated[m].name != updated[k].name
    ensures ApplyEntityUpdates(es, updated)[FindEntity(es, updated[k].name).value] == updated[k]
  {
    var n := |updated| - 1;
    var prefix := updated[..n];
    var before := ApplyEntityUpdates(es, prefix);
    var u := updated[n];
    var i := FindEntity(es, updated[k].name).value;
    FindEntityNames(es, before, u.name);
    var idx := FindEntity(es, u.name);
    assert ApplyEntityUpdates(es, updated) == if idx.Some? then before[idx.value := u] else before;
    if k < n {
      assert prefix[k] == updated[k];
      assert forall m :: 0 <= m < |prefix| && m != k ==> prefix[m].name != prefix[k].name;
      ApplyEntityUpdatesLands(es, prefix, k);
      if idx.Some? {
        assert u.name != updated[k].name;
        assert idx.value != i;
      }
    }
  }

  /** A relation whose key no updated record carries is left as it was. */
  lemma {:induction false} ApplyRelationUpdatesUnmentioned(rs: seq<Relation>, updated: seq<Relation>, j: nat)
    requires j < |rs| && !HasKey(updated, rs[j])
    ensures ApplyRelationUpdates(rs, updated)[j] == rs[j]
  {
    if updated != [] {
      var n := |updated| - 1;
      assert !SameKey(updated[n], rs[j]);
      assert !HasKey(updated[..n], rs[j]) by {
        forall m | 0 <= m < n ensures !SameKey(updated[..n][m], rs[j]) {
          assert updated[..n][m] == updated[m];
        }
      }
      ApplyRelationUpdatesUnmentioned(rs, updated[..n], j);
    }
  }

  /** The first relation of a key carried by exactly one updated record becomes that record. */
  lemma {:induction false} ApplyRelationUpdatesLands(rs: seq<Relation>, updated: seq<Relation>, k: nat)
    requires k < |updated| && HasKey(rs, updated[k])
    requires forall m :: 0 <= m < |updated| && m != k ==> !SameKey(updated[m], updated[k])
    ensures ApplyRelationUpdates(rs, updated)[FindRelation(rs, updated[k]).value] == updated[k]
  {
    var n := |updated| - 1;
    var prefix := updated[..n];
    var before := ApplyRelationUpdates(rs, prefix);
    var u := updated[n];
    var i := FindRelation(rs, updated[k]).value;
    FindRelationKeys(rs, before, u);
    var idx := FindRelation(rs, u);
    assert ApplyRelationUpdates(rs, updated) == if idx.Some? then before[idx.value := u] else before;
    if k < n {
      assert prefix[k] == updated[k];
      assert forall m :: 0 <= m < |prefix| && m != k ==> !SameKey(prefix[m], prefix[k]);
      ApplyRelationUpdatesLands(rs, prefix, k);
      if idx.Some? {
        assert !SameKey(u, updated[k]);
        assert idx.value != i;
      }
    }
  }

  lemma {:induction false} FindEntityNames(es: seq<Entity>, es': seq<Entity>, name: string)
    requires |es'| == |es| && forall j :: 0 <= j < |es| ==> es'[j].name == es[j].name
    ensures FindEntity(es', name) == FindEntity(es, name)
  {
    if es != [] {
      FindEntityNames(es[1..], es'[1..], name);
    }
  }

  lemma {:induction false} FindRelationKeys(rs: seq<Relation>, rs': seq<Relation>, key: Relation)
    requires |rs'| == |rs| && forall j :: 0 <= j < |rs| ==> SameKey(rs'[j], rs[j])
    ensures FindRelation(rs', key) == FindRelation(rs, key)
  {
    if rs != [] {
      FindRelationKeys(rs[1..], rs'[1..], key);
    }
  }
}
