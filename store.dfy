/**
 * The memory file discipline of `loadGraph` and `saveGraph` (src/graph/manager.ts).
 * The file is its text, `Option<string>`; `None` stands for a file that does not exist.
 */
module Store {
  import opened Wrappers
  import opened KnowledgeGraph
  import opened Text
  import opened RecordCodec

  /** Why an operation gave up. */
  datatype Failure =
    | MalformedLine(line: string)      // `JSON.parse` threw on this line of the file
    | EntityNotFound(name: string)     // "Entity with name … not found"
    | RelationNotFound                 // "Relation not found"

  /**
   * The lines of the file that survive `filter(line => line.trim() !== "")`, in order
   * (`Text.TrimEmptyIffBlank`: a line trims to "" exactly when it is blank).
   */
  function NonBlankLines(lines: seq<string>): seq<string>
  {
    if lines == [] then []
    else if !IsBlank(lines[0]) then [lines[0]] + NonBlankLines(lines[1..])
    else NonBlankLines(lines[1..])
  }

  /**
   * The `reduce` of `loadGraph`: each line is parsed; entity records are pushed onto the
   * entities, relation records onto the relations, any other tag is dropped, and the first
   * malformed line aborts the whole load.
   */
  function Collect(lines: seq<string>): (r: Result<Graph, Failure>)
    ensures r.Ok? ==> |r.value.entities| + |r.value.relations| <= |lines|
  {
    if lines == [] then Ok(EmptyGraph)
    else
      var record :- DecodeLine(lines[0]).ToResult(MalformedLine(lines[0]));
      var g :- Collect(lines[1..]);
      match record
      case EntityRecord(e) => Ok(g.(entities := [e] + g.entities))
      case RelationRecord(rel) => Ok(g.(relations := [rel] + g.relations))
      case OtherRecord(_) => Ok(g)
  }

  /** `loadGraph`: a missing file is the empty graph; otherwise the records of its non-blank lines. */
  function Load(file: Option<string>): (r: Result<Graph, Failure>)
    ensures file.None? ==> r == Ok(EmptyGraph)
    ensures r.Err? ==> r.error.MalformedLine?
  {
    match file
    case None => Ok(EmptyGraph)
    case Some(text) => CollectFails(NonBlankLines(SplitLines(text))); Collect(NonBlankLines(SplitLines(text)))
  }

  function EntityLines(es: seq<Entity>): (lines: seq<string>)
    ensures |lines| == |es| && forall k :: 0 <= k < |es| ==> lines[k] == EncodeEntity(es[k])
  {
    seq(|es|, k requires 0 <= k < |es| => EncodeEntity(es[k]))
  }

  function RelationLines(rs: seq<Relation>): (lines: seq<string>)
    ensures |lines| == |rs| && forall k :: 0 <= k < |rs| ==> lines[k] == EncodeRelation(rs[k])
  {
    seq(|rs|, k requires 0 <= k < |rs| => EncodeRelation(rs[k]))
  }

  /** The lines `saveGraph` writes: one per entity, then one per relation, both in graph order. */
  function RecordLines(g: Graph): seq<string>
  {
    EntityLines(g.entities) + RelationLines(g.relations)
  }

  /** `saveGraph`: the record lines joined by newlines (no trailing newline). */
  function Save(g: Graph): string
  {
    JoinLines(RecordLines(g))
  }

  /** A load fails exactly when some line it parses is malformed. */
  lemma {:induction false} CollectFails(lines: seq<string>)
    ensures Collect(lines).Err? <==> exists k :: 0 <= k < |lines| && DecodeLine(lines[k]).None?
    ensures Collect(lines).Err? ==> Collect(lines).error.MalformedLine?
  {
    if lines != [] {
      CollectFails(lines[1..]);
      if DecodeLine(lines[0]).Some? && exists k :: 0 <= k < |lines| && DecodeLine(lines[k]).None? {
        var k :| 0 <= k < |lines| && DecodeLine(lines[k]).None?;
        assert lines[1..][k - 1] == lines[k];
      }
      if exists k :: 0 <= k < |lines[1..]| && DecodeLine(lines[1..][k]).None? {
        var k :| 0 <= k < |lines[1..]| && DecodeLine(lines[1..][k]).None?;
        assert lines[k + 1] == lines[1..][k];
      }
    }
  }

  /** Lines that all decode to entity records load as those entities, ahead of what follows. */
  lemma {:induction false} CollectEntityRecords(lines: seq<string>, es: seq<Entity>, rest: seq<string>)
    requires |lines| == |es| && forall k :: 0 <= k < |lines| ==> DecodeLine(lines[k]) == Some(EntityRecord(es[k]))
    requires Collect(rest).Ok?
    ensures Collect(lines + rest) == Ok(Collect(rest).value.(entities := es + Collect(rest).value.entities))
  {
    var g := Collect(rest).value;
    if lines != [] {
      var tail := lines[1..] + rest;
      HeadTail(lines, rest);
      assert forall k :: 0 <= k < |lines| - 1 ==> lines[1..][k] == lines[k + 1];
      CollectEntityRecords(lines[1..], es[1..], rest);
      CollectEntityLine(lines[0], es[0], tail);
      HeadTail(es, g.entities);
    } else {
      assert lines + rest == rest;
      assert es + g.entities == g.entities;
    }
  }

  lemma HeadTail<T>(s: seq<T>, t: seq<T>)
    requires s != []
    ensures [s[0]] + (s[1..] + t) == s + t
  {
    assert s == [s[0]] + s[1..];
  }

  lemma CollectEntityLine(line: string, e: Entity, rest: seq<string>)
    requires DecodeLine(line) == Some(EntityRecord(e))
    requires Collect(rest).Ok?
    ensures Collect([line] + rest) == Ok(Collect(rest).value.(entities := [e] + Collect(rest).value.entities))
  {
    assert ([line] + rest)[1..] == rest;
  }

  /** Lines that all decode to relation records load as those relations. */
  lemma {:induction false} CollectRelationRecords(lines: seq<string>, rs: seq<Relation>)
    requires |lines| == |rs| && forall k :: 0 <= k < |lines| ==> DecodeLine(lines[k]) == Some(RelationRecord(rs[k]))
    ensures Collect(lines) == Ok(Graph([], rs))
  {
    if lines != [] {
      assert forall k :: 0 <= k < |lines| - 1 ==> lines[1..][k] == lines[k + 1];
      CollectRelationRecords(lines[1..], rs[1..]);
      assert [rs[0]] + rs[1..] == rs;
    }
  }

  lemma CollectRecordLines(es: seq<Entity>, rs: seq<Relation>)
    ensures Collect(EntityLines(es) + RelationLines(rs)) == Ok(Graph(es, rs))
  {
    var rls := RelationLines(rs);
    forall k | 0 <= k < |rs| ensures DecodeLine(rls[k]) == Some(RelationRecord(rs[k])) {
      DecodeEncodeRelation(rs[k]);
    }
    CollectRelationRecords(rls, rs);
    var els := EntityLines(es);
    forall k | 0 <= k < |es| ensures DecodeLine(els[k]) == Some(EntityRecord(es[k])) {
      DecodeEncodeEntity(es[k]);
    }
    CollectEntityRecords(els, es, rls);
    assert es + [] == es;
  }

  lemma {:induction false} NonBlankLinesKeepsAll(lines: seq<string>)
    requires forall k :: 0 <= k < |lines| ==> !IsBlank(lines[k])
    ensures NonBlankLines(lines) == lines
  {
    if lines != [] {
      NonBlankLinesKeepsAll(lines[1..]);
      assert [lines[0]] + lines[1..] == lines;
    }
  }

  /** Every saved line is free of newlines and is not blank. */
  predicate CleanLine(line: string)
  {
    '\n' !in line && !IsBlank(line)
  }

  lemma RecordLinesClean(g: Graph)
    ensures forall k :: 0 <= k < |RecordLines(g)| ==> CleanLine(RecordLines(g)[k])
  {
    var lines := RecordLines(g);
    forall k | 0 <= k < |lines| ensures CleanLine(lines[k]) {
      if k < |g.entities| {
        assert lines[k] == EncodeEntity(g.entities[k]);
      } else {
        assert lines[k] == EncodeRelation(g.relations[k - |g.entities|]);
      }
    }
  }

  /** Reading back lines joined by newlines parses exactly those lines. */
  lemma LoadJoined(lines: seq<string>)
    requires forall k :: 0 <= k < |lines| ==> CleanLine(lines[k])
    ensures Load(Some(JoinLines(lines))) == Collect(lines)
  {
    if lines == [] {
      assert SplitLines("") == [""];
      assert IsBlank("");
    } else {
      SplitJoinLines(lines);
      NonBlankLinesKeepsAll(lines);
    }
  }

  /**
   * Round trip: loading what `saveGraph` wrote gives back the same entities and the same
   * relations, each in their original order.
   */
  lemma LoadSave(g: Graph)
    ensures Load(Some(Save(g))) == Ok(g)
  {
    RecordLinesClean(g);
    LoadJoined(RecordLines(g));
    CollectRecordLines(g.entities, g.relations);
  }

  /** A blank line anywhere in the file is skipped by the load. */
  lemma {:induction false} BlankLineSkipped(before: seq<string>, blank: string, after: seq<string>)
    requires IsBlank(blank)
    ensures NonBlankLines(before + [blank] + after) == NonBlankLines(before + after)
  {
    if before == [] {
      assert (before + [blank] + after)[0] == blank;
      assert (before + [blank] + after)[1..] == after;
      assert before + after == after;
    } else {
      BlankLineSkipped(before[1..], blank, after);
      assert (before + [blank] + after)[0] == before[0];
      assert (before + after)[0] == before[0];
      assert (before + [blank] + after)[1..] == before[1..] + [blank] + after;
      assert (before + after)[1..] == before[1..] + after;
    }
  }

  /** A well-formed line whose tag is neither "entity" nor "relation" changes nothing. */
  lemma {:induction false} UnknownTagIgnored(before: seq<string>, line: string, after: seq<string>)
    requires DecodeLine(line).Some? && DecodeLine(line).value.OtherRecord?
    ensures Collect(before + [line] + after) == Collect(before + after)
  {
    if before == [] {
      assert (before + [line] + after)[0] == line;
      assert (before + [line] + after)[1..] == after;
      assert before + after == after;
    } else {
      UnknownTagIgnored(before[1..], line, after);
      assert (before + [line] + after)[0] == before[0];
      assert (before + after)[0] == before[0];
      assert (before + [line] + after)[1..] == before[1..] + [line] + after;
      assert (before + after)[1..] == before[1..] + after;
    }
  }
}
