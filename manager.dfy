/**
 * `KnowledgeGraphManager` (src/graph/manager.ts): every public operation loads the memory file,
 * works on the loaded graph, and writes the whole graph back. The memory file is the one piece
 * of state, a field of the class; an operation that fails (a malformed file, a missing entity or
 * relation) returns before `saveGraph` and leaves the file as it was.
 */
module Manager {
  import opened Wrappers
  import opened KnowledgeGraph
  import opened Store
  import opened GraphOps
  import opened Search

  class KnowledgeGraphManager {
    /** The memory file's text, or `None` when there is no file yet. */
    var file: Option<string>

    constructor(file: Option<string>)
      ensures this.file == file
    {
      this.file := file;
    }

    /** What `loadGraph` would read now. */
    function Stored(): Result<Graph, Failure>
      reads this
    {
      Load(file)
    }

    /** `saveGraph`: the file becomes the graph's record lines, which load back as the graph. */
    method SaveGraph(g: Graph)
      modifies this
      ensures file == Some(Save(g)) && Stored() == Ok(g)
    {
      file := Some(Save(g));
      LoadSave(g);
    }

    /**
     * `createEntities`: the batch entities whose name is not stored yet are stamped and appended;
     * they are returned.
     */
    method CreateEntities(entities: seq<Entity>, now: string) returns (r: Result<seq<Entity>, Failure>)
      modifies this
      ensures old(Stored()).Err? ==> r == Err(old(Stored()).error) && file == old(file)
      ensures old(Stored()).Ok? ==>
        var g := old(Stored()).value;
        r == Ok(NewEntities(g.entities, entities, now)) &&
        Stored() == Ok(g.(entities := g.entities + r.value)) &&
        file == Some(Save(Stored().value))
    {
      var loaded := Load(file);
      if loaded.Err? {
        return Err(loaded.error);
      }
      var graph := loaded.value;
      var newEntities := NewEntities(graph.entities, entities, now);
      graph := graph.(entities := graph.entities + newEntities);
      SaveGraph(graph);
      return Ok(newEntities);
    }

    /** `createRelations`: the same, with the `(from, to, relationType)` triple as the key. */
    method CreateRelations(relations: seq<Relation>, now: string) returns (r: Result<seq<Relation>, Failure>)
      modifies this
      ensures old(Stored()).Err? ==> r == Err(old(Stored()).error) && file == old(file)
      ensures old(Stored()).Ok? ==>
        var g := old(Stored()).value;
        r == Ok(NewRelations(g.relations, relations, now)) &&
        Stored() == Ok(g.(relations := g.relations + r.value)) &&
        file == Some(Save(Stored().value))
    {
      var loaded := Load(file);
      if loaded.Err? {
        return Err(loaded.error);
      }
      var graph := loaded.value;
      var newRelations := NewRelations(graph.relations, relations, now);
      graph := graph.(relations := graph.relations + newRelations);
      SaveGraph(graph);
      return Ok(newRelations);
    }

    /**
     * `addObservations`: item after item, the entity named is looked up and the contents it does
     * not hold yet are appended. The first missing name aborts the call before anything is saved.
     */
    method AddObservations(batch: seq<ObservationAddition>) returns (r: Result<seq<AddedObservations>, Failure>)
      modifies this
      ensures old(Stored()).Err? ==> r == Err(old(Stored()).error) && file == old(file)
      ensures old(Stored()).Ok? ==>
        var g := old(Stored()).value;
        match GraphOps.AddObservations(g.entities, batch)
        case Err(e) => r == Err(e) && file == old(file)
        case Ok((es, results)) =>
          r == Ok(results) && Stored() == Ok(g.(entities := es)) && file == Some(Save(Stored().value))
    {
      var loaded := Load(file);
      if loaded.Err? {
        return Err(loaded.error);
      }
      var graph := loaded.value;
      var entities := graph.entities;
      var results: seq<AddedObservations> := [];
      for k := 0 to |batch|
        invariant GraphOps.AddObservations(graph.entities, batch[..k]) == Ok((entities, results))
        invariant file == old(file)
      {
        var item := batch[k];
        var found := FindEntity(entities, item.entityName);
        if found.None? {
          AddObservationsStops(graph.entities, batch, k);
          return Err(EntityNotFound(item.entityName));
        }
        AddObservationsNext(graph.entities, batch, k);
        var i := found.value;
        var added := Unobserved(entities[i].observations, item.contents);
        entities := entities[i := entities[i].(observations := entities[i].observations + added)];
        results := results + [AddedObservations(item.entityName, added)];
      }
      assert batch[..|batch|] == batch;
      SaveGraph(graph.(entities := entities));
      return Ok(results);
    }

    /** `deleteEntities`: the named entities go, with every relation that touches one of them. */
    method DeleteEntities(names: seq<string>) returns (r: Result<(), Failure>)
      modifies this
      ensures old(Stored()).Err? ==> r == Err(old(Stored()).error) && file == old(file)
      ensures old(Stored()).Ok? ==>
        r == Ok(()) && Stored() == Ok(GraphOps.DeleteEntities(old(Stored()).value, names)) &&
        file == Some(Save(Stored().value))
    {
      var loaded := Load(file);
      if loaded.Err? {
        return Err(loaded.error);
      }
      var graph := loaded.value;
      graph := graph.(entities := KeepEntities(graph.entities, names));
      graph := graph.(relations := KeepRelations(graph.relations, names));
      SaveGraph(graph);
      return Ok(());
    }

    /**
     * `deleteObservations`: item after item, the entity named (when there is one) loses every
     * occurrence of the listed strings. Missing names are skipped.
     */
    method DeleteObservations(batch: seq<ObservationDeletion>) returns (r: Result<(), Failure>)
      modifies this
      ensures old(Stored()).Err? ==> r == Err(old(Stored()).error) && file == old(file)
      ensures old(Stored()).Ok? ==>
        var g := old(Stored()).value;
        r == Ok(()) && Stored() == Ok(g.(entities := GraphOps.DeleteObservations(g.entities, batch))) &&
        file == Some(Save(Stored().value))
    {
      var loaded := Load(file);
      if loaded.Err? {
        return Err(loaded.error);
      }
      var graph := loaded.value;
      var entities := graph.entities;
      for k := 0 to |batch|
        invariant entities == GraphOps.DeleteObservations(graph.entities, batch[..k])
      {
        var d := batch[k];
        DeleteObservationsNext(graph.entities, batch, k);
        var found := FindEntity(entities, d.entityName);
        if found.Some? {
          var i := found.value;
          entities := entities[i := entities[i].(observations := RemoveObservations(entities[i].observations, d.observations))];
        }
      }
      assert batch[..|batch|] == batch;
      SaveGraph(graph.(entities := entities));
      return Ok(());
    }

    /** `deleteRelations`: the stored relations whose key matches an item of the batch go. */
    method DeleteRelations(relations: seq<Relation>) returns (r: Result<(), Failure>)
      modifies this
      ensures old(Stored()).Err? ==> r == Err(old(Stored()).error) && file == old(file)
      ensures old(Stored()).Ok? ==>
        var g := old(Stored()).value;
        r == Ok(()) && Stored() == Ok(g.(relations := KeepUnmatched(g.relations, relations))) &&
        file == Some(Save(Stored().value))
    {
      var loaded := Load(file);
      if loaded.Err? {
        return Err(loaded.error);
      }
      var graph := loaded.value;
      graph := graph.(relations := KeepUnmatched(graph.relations, relations));
      SaveGraph(graph);
      return Ok(());
    }

    /** `readGraph`: the loaded graph. */
    method ReadGraph() returns (r: Result<Graph, Failure>)
      ensures r == Stored()
    {
      r := Load(file);
    }

    /**
     * `searchNodes`: the graph is loaded first (so a malformed file fails even a blank query),
     * then the query is checked, every entity is scored, and the kept entities come back with
     * their connected relations.
     */
    method SearchNodes(query: string) returns (r: Result<Graph, Failure>)
      ensures Stored().Err? ==> r == Err(Stored().error)
      ensures Stored().Ok? ==> r == Ok(Search.SearchNodes(Stored().value, query))
    {
      var loaded := Load(file);
      if loaded.Err? {
        return Err(loaded.error);
      }
      var found := SearchLoaded(loaded.value, query);
      return Ok(found);
    }

    /** `openNodes`: the listed entities and the relations between them. */
    method OpenNodes(names: seq<string>) returns (r: Result<Graph, Failure>)
      ensures Stored().Err? ==> r == Err(Stored().error)
      ensures Stored().Ok? ==> r == Ok(Search.OpenNodes(Stored().value, names))
    {
      var loaded := Load(file);
      if loaded.Err? {
        return Err(loaded.error);
      }
      return Ok(Search.OpenNodes(loaded.value, names));
    }

    /**
     * `updateEntities`: every item's updated record is computed first (a missing name aborts
     * before anything is saved); then each one overwrites the first entity of its name.
     */
    method UpdateEntities(batch: seq<EntityUpdate>, now: string) returns (r: Result<seq<Entity>, Failure>)
      modifies this
      ensures old(Stored()).Err? ==> r == Err(old(Stored()).error) && file == old(file)
      ensures old(Stored()).Ok? ==>
        var g := old(Stored()).value;
        match UpdatedEntities(g.entities, batch, now)
        case Err(e) => r == Err(e) && file == old(file)
        case Ok(updated) =>
          r == Ok(updated) && Stored() == Ok(g.(entities := ApplyEntityUpdates(g.entities, updated))) &&
          file == Some(Save(Stored().value))
    {
      var loaded := Load(file);
      if loaded.Err? {
        return Err(loaded.error);
      }
      var graph := loaded.value;
      var computed := UpdatedEntities(graph.entities, batch, now);
      if computed.Err? {
        return Err(computed.error);
      }
      var updated := computed.value;
      var entities := graph.entities;
      for k := 0 to |updated|
        invariant entities == ApplyEntityUpdates(graph.entities, updated[..k])
      {
        var u := updated[k];
        ApplyEntityUpdatesNext(graph.entities, updated, k);
        var index := FindEntity(entities, u.name);
        if index.Some? {
          entities := entities[index.value := u];
        }
      }
      assert updated[..|updated|] == updated;
      SaveGraph(graph.(entities := entities));
      return Ok(updated);
    }

    /**
     * `updateRelations`: every item's updated record is computed first (a missing key aborts
     * with "Relation not found" before anything is saved); then each one overwrites the first
     * relation of its key.
     */
    method UpdateRelations(batch: seq<Relation>, now: string) returns (r: Result<seq<Relation>, Failure>)
      modifies this
      ensures old(Stored()).Err? ==> r == Err(old(Stored()).error) && file == old(file)
      ensures old(Stored()).Ok? ==>
        var g := old(Stored()).value;
        match UpdatedRelations(g.relations, batch, now)
        case Err(e) => r == Err(e) && file == old(file)
        case Ok(updated) =>
          r == Ok(updated) && Stored() == Ok(g.(relations := ApplyRelationUpdates(g.relations, updated))) &&
          file == Some(Save(Stored().value))
    {
      var loaded := Load(file);
      if loaded.Err? {
        return Err(loaded.error);
      }
      var graph := loaded.value;
      var computed := UpdatedRelations(graph.relations, batch, now);
      if computed.Err? {
        return Err(computed.error);
      }
      var updated := computed.value;
      var relations := graph.relations;
      for k := 0 to |updated|
        invariant relations == ApplyRelationUpdates(graph.relations, updated[..k])
      {
        var u := updated[k];
        ApplyRelationUpdatesNext(graph.relations, updated, k);
        var index := FindRelation(relations, u);
        if index.Some? {
          relations := relations[index.value := u];
        }
      }
      assert updated[..|updated|] == updated;
      SaveGraph(graph.(relations := relations));
      return Ok(updated);
    }
  }
}
