/**
 * The three record shapes of the knowledge graph (src/types/knowledge-graph.ts)
 * and the key and uniqueness notions every operation relies on.
 */
module KnowledgeGraph {

  /** A named node. `version` is a JavaScript number; an absent version is represented by 0. */
  datatype Entity = Entity(
    name: string,
    entityType: string,
    observations: seq<string>,
    createdAt: string,
    version: int)

  /** A typed, directed edge; `(from, to, relationType)` is its key. */
  datatype Relation = Relation(
    from: string,
    to: string,
    relationType: string,
    createdAt: string,
    version: int)

  datatype Graph = Graph(entities: seq<Entity>, relations: seq<Relation>)

  const EmptyGraph := Graph([], [])

  /** Two relations denote the same edge when their key triples agree. */
  predicate SameKey(r: Relation, s: Relation)
  {
    r.from == s.from && r.to == s.to && r.relationType == s.relationType
  }

  predicate HasName(es: seq<Entity>, name: string)
  {
    exists i :: 0 <= i < |es| && es[i].name == name
  }

  predicate HasKey(rs: seq<Relation>, r: Relation)
  {
    exists i :: 0 <= i < |rs| && SameKey(rs[i], r)
  }

  /** Entity names are unique within a list. */
  predicate UniqueNames(es: seq<Entity>)
  {
    forall i, j :: 0 <= i < j < |es| ==> es[i].name != es[j].name
  }

  /** Relation key triples are unique within a list. */
  predicate UniqueKeys(rs: seq<Relation>)
  {
    forall i, j :: 0 <= i < j < |rs| ==> !SameKey(rs[i], rs[j])
  }

  /**
   * Entity names and relation keys are unique. The create operations keep this when the batch's
   * own names (keys) are distinct (`GraphOps.CreateEntitiesKeepsUnique`,
   * `GraphOps.CreateRelationsKeepsUnique`).
   */
  predicate WellFormed(g: Graph)
  {
    UniqueNames(g.entities) && UniqueKeys(g.relations)
  }

  /** `a` is `b` with some elements dropped and the rest kept in order. */
  predicate Subsequence<T(==)>(a: seq<T>, b: seq<T>)
    decreases |b|
  {
    if a == [] then true
    else if b == [] then false
    else (a[0] == b[0] && Subsequence(a[1..], b[1..])) || Subsequence(a, b[1..])
  }

  /** Dropping the head of `b` as well still leaves `a` a subsequence of `b`. */
  lemma SubsequenceSkip<T>(a: seq<T>, b: seq<T>)
    requires b != [] && Subsequence(a, b[1..])
    ensures Subsequence(a, b)
  {
  }

  lemma {:induction false} SubsequenceMembers<T>(a: seq<T>, b: seq<T>, x: T)
    requires Subsequence(a, b)
    requires x in a
    ensures x in b
    decreases |b|
  {
    if a[0] == b[0] && Subsequence(a[1..], b[1..]) {
      if x != a[0] {
        assert x in a[1..];
        SubsequenceMembers(a[1..], b[1..], x);
      }
    } else {
      SubsequenceMembers(a, b[1..], x);
    }
  }

  /** The count of `c` in a non-empty list is the head's share plus the tail's count. */
  lemma HeadCount<T>(s: seq<T>, c: T)
    requires s != []
    ensures multiset(s)[c] == (if s[0] == c then 1 else 0) + multiset(s[1..])[c]
  {
    assert s == [s[0]] + s[1..];
  }
}
