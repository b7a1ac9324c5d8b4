/**
 * One line of the memory file per record. The original writes each record as a JSON object
 * carrying a `type` tag; this model replaces the JSON text by a concrete field encoding with
 * the properties the store relies on: decoding inverts encoding, an encoded line never holds
 * a newline, and it is never blank. Every field is written escaped (`\` becomes `\\`, `;`
 * becomes `\;`, a newline becomes `\n`) and terminated by `;`; numbers are written in decimal.
 */
module RecordCodec {
  import opened Wrappers
  import opened KnowledgeGraph
  import opened Text

  /** What one parsed line holds: its `type` tag decides whether it is an entity, a relation or ignored. */
  datatype Record = EntityRecord(entity: Entity) | RelationRecord(relation: Relation) | OtherRecord(tag: string)

  const EntityTag := "entity"
  const RelationTag := "relation"

  // ---------------------------------------------------------------- strings

  function EscapeChar(c: char): string
  {
    if c == '\\' then "\\\\" else if c == ';' then "\\;" else if c == '\n' then "\\n" else [c]
  }

  function Escape(s: string): (r: string)
    ensures '\n' !in r
  {
    if s == [] then [] else EscapeChar(s[0]) + Escape(s[1..])
  }

  function EncodeString(s: string): (r: string)
    ensures '\n' !in r && |r| >= 1 && r[|r| - 1] == ';'
  {
    Escape(s) + ";"
  }

  /** Reads one escaped, `;`-terminated field; also returns the text after the terminator. */
  function DecodeString(s: string): Option<(string, string)>
    decreases |s|
  {
    if s == [] then None
    else if s[0] == ';' then Some(("", s[1..]))
    else if s[0] == '\n' then None
    else if s[0] == '\\' then
      if |s| < 2 || !(s[1] == '\\' || s[1] == ';' || s[1] == 'n') then None
      else
        var p :- DecodeString(s[2..]);
        Some(([if s[1] == 'n' then '\n' else s[1]] + p.0, p.1))
    else
      var p :- DecodeString(s[1..]);
      Some(([s[0]] + p.0, p.1))
  }

  lemma {:induction false} DecodeEncodeString(s: string, rest: string)
    ensures DecodeString(EncodeString(s) + rest) == Some((s, rest))
  {
    if s == [] {
      assert EncodeString(s) + rest == [';'] + rest;
    } else {
      DecodeEncodeString(s[1..], rest);
      var tail := EncodeString(s[1..]) + rest;
      assert EncodeString(s) + rest == EscapeChar(s[0]) + tail;
      if s[0] == '\\' || s[0] == ';' || s[0] == '\n' {
        assert (EscapeChar(s[0]) + tail)[2..] == tail;
      } else {
        assert (EscapeChar(s[0]) + tail)[1..] == tail;
      }
      assert s == [s[0]] + s[1..];
    }
  }

  // ---------------------------------------------------------------- numbers

  function DigitChar(d: nat): char
    requires d < 10
  {
    ('0' as int + d) as char
  }

  predicate IsDigit(c: char)
  {
    '0' <= c <= '9'
  }

  /** Decimal digits of `n`, most significant first, without leading zeros. */
  function NatToDigits(n: nat): (r: string)
    ensures |r| >= 1
    ensures forall i :: 0 <= i < |r| ==> IsDigit(r[i])
  {
    if n < 10 then [DigitChar(n)] else NatToDigits(n / 10) + [DigitChar(n % 10)]
  }

  function DigitsValue(s: string): nat
    requires forall i :: 0 <= i < |s| ==> IsDigit(s[i])
  {
    if s == [] then 0 else DigitsValue(s[..|s| - 1]) * 10 + DigitValue(s[|s| - 1])
  }

  function DigitValue(c: char): nat
    requires IsDigit(c)
  {
    c as int - '0' as int
  }

  lemma {:induction false} DigitsValueOfNatToDigits(n: nat)
    ensures DigitsValue(NatToDigits(n)) == n
  {
    if n >= 10 {
      DigitsValueOfNatToDigits(n / 10);
      var d := NatToDigits(n);
      assert d[..|d| - 1] == NatToDigits(n / 10);
    }
  }

  /** A JavaScript integer-valued number, as text: an optional minus sign and decimal digits. */
  function IntToText(v: int): string
  {
    if v < 0 then "-" + NatToDigits(-v) else NatToDigits(v)
  }

  function ParseInt(s: string): Option<int>
  {
    if s != [] && s[0] == '-' then
      if |s| >= 2 && forall i :: 1 <= i < |s| ==> IsDigit(s[i]) then Some(0 - DigitsValue(s[1..]) as int) else None
    else if s != [] && forall i :: 0 <= i < |s| ==> IsDigit(s[i]) then Some(DigitsValue(s))
    else None
  }

  lemma ParseIntToText(v: int)
    ensures ParseInt(IntToText(v)) == Some(v)
  {
    var s := IntToText(v);
    if v < 0 {
      var d := NatToDigits(-v);
      DigitsValueOfNatToDigits(-v);
      assert s[1..] == d;
      assert forall i :: 1 <= i < |s| ==> s[i] == d[i - 1];
    } else {
      DigitsValueOfNatToDigits(v);
      assert IsDigit(s[0]);
    }
  }

  function EncodeInt(v: int): (r: string)
    ensures '\n' !in r
  {
    EncodeString(IntToText(v))
  }

  function DecodeInt(s: string): Option<(int, string)>
  {
    var p :- DecodeString(s);
    var v :- ParseInt(p.0);
    Some((v, p.1))
  }

  lemma DecodeEncodeInt(v: int, rest: string)
    ensures DecodeInt(EncodeInt(v) + rest) == Some((v, rest))
  {
    DecodeEncodeString(IntToText(v), rest);
    ParseIntToText(v);
  }

  // ---------------------------------------------------------------- string lists

  /** The fields of a list, back to back, after a count. */
  function EncodeFields(xs: seq<string>): (r: string)
    ensures '\n' !in r
  {
    if xs == [] then [] else EncodeString(xs[0]) + EncodeFields(xs[1..])
  }

  function EncodeList(xs: seq<string>): (r: string)
    ensures '\n' !in r
  {
    EncodeInt(|xs|) + EncodeFields(xs)
  }

  function DecodeFields(k: nat, s: string): Option<(seq<string>, string)>
  {
    if k == 0 then Some(([], s))
    else
      var p :- DecodeString(s);
      var q :- DecodeFields(k - 1, p.1);
      Some(([p.0] + q.0, q.1))
  }

  function DecodeList(s: string): Option<(seq<string>, string)>
  {
    var n :- DecodeInt(s);
    if n.0 < 0 then None else DecodeFields(n.0, n.1)
  }

  lemma {:induction false} DecodeEncodeFields(xs: seq<string>, rest: string)
    ensures DecodeFields(|xs|, EncodeFields(xs) + rest) == Some((xs, rest))
  {
    if xs != [] {
      assert EncodeFields(xs) + rest == EncodeString(xs[0]) + (EncodeFields(xs[1..]) + rest);
      DecodeEncodeString(xs[0], EncodeFields(xs[1..]) + rest);
      DecodeEncodeFields(xs[1..], rest);
      assert |xs| - 1 == |xs[1..]|;
      var y := EncodeFields(xs[1..]) + rest;
      assert DecodeFields(|xs| - 1, y) == Some((xs[1..], rest));
      assert DecodeString(EncodeFields(xs) + rest) == Some((xs[0], y));
      assert [xs[0]] + xs[1..] == xs;
    } else {
      assert EncodeFields(xs) + rest == rest;
    }
  }

  lemma DecodeEncodeList(xs: seq<string>, rest: string)
    ensures DecodeList(EncodeList(xs) + rest) == Some((xs, rest))
  {
    assert EncodeList(xs) + rest == EncodeInt(|xs|) + (EncodeFields(xs) + rest);
    DecodeEncodeInt(|xs|, EncodeFields(xs) + rest);
    DecodeEncodeFields(xs, rest);
  }

  // ---------------------------------------------------------------- records

  /** The five fields of an entity, each encoded in turn. */
  function EntityFields(e: Entity): (r: string)
    ensures '\n' !in r
  {
    EncodeString(e.name) + (EncodeString(e.entityType) +
      (EncodeList(e.observations) + (EncodeString(e.createdAt) + EncodeInt(e.version))))
  }

  /** The five fields of a relation, each encoded in turn. */
  function RelationFields(r: Relation): (line: string)
    ensures '\n' !in line
  {
    EncodeString(r.from) + (EncodeString(r.to) +
      (EncodeString(r.relationType) + (EncodeString(r.createdAt) + EncodeInt(r.version))))
  }

  /** The line `saveGraph` writes for an entity: tag, then the five fields. */
  function EncodeEntity(e: Entity): (r: string)
    ensures '\n' !in r && !IsBlank(r)
  {
    EncodedLineNotBlank(EntityTag, EntityFields(e));
    EncodeString(EntityTag) + EntityFields(e)
  }

  /** The line `saveGraph` writes for a relation: tag, then the five fields. */
  function EncodeRelation(r: Relation): (line: string)
    ensures '\n' !in line && !IsBlank(line)
  {
    EncodedLineNotBlank(RelationTag, RelationFields(r));
    EncodeString(RelationTag) + RelationFields(r)
  }

  function DecodeEntityFields(s: string): Option<Entity>
  {
    var name :- DecodeString(s);
    var entityType :- DecodeString(name.1);
    var observations :- DecodeList(entityType.1);
    var createdAt :- DecodeString(observations.1);
    var version :- DecodeInt(createdAt.1);
    if version.1 != [] then None
    else Some(Entity(name.0, entityType.0, observations.0, createdAt.0, version.0))
  }

  function DecodeRelationFields(s: string): Option<Relation>
  {
    var from :- DecodeString(s);
    var to :- DecodeString(from.1);
    var relationType :- DecodeString(to.1);
    var createdAt :- DecodeString(relationType.1);
    var version :- DecodeInt(createdAt.1);
    if version.1 != [] then None
    else Some(Relation(from.0, to.0, relationType.0, createdAt.0, version.0))
  }

  /**
   * `JSON.parse` of one line: None for a malformed line, otherwise the record its tag selects.
   * A well-formed line with any other tag is a record the loader ignores.
   */
  function DecodeLine(line: string): Option<Record>
  {
    var tagged :- DecodeString(line);
    if tagged.0 == EntityTag then
      var e :- DecodeEntityFields(tagged.1);
      Some(EntityRecord(e))
    else if tagged.0 == RelationTag then
      var r :- DecodeRelationFields(tagged.1);
      Some(RelationRecord(r))
    else Some(OtherRecord(tagged.0))
  }

  lemma DecodeEntityFieldsOf(e: Entity)
    ensures DecodeEntityFields(EntityFields(e)) == Some(e)
  {
    var v := EncodeInt(e.version);
    var c := EncodeString(e.createdAt) + v;
    var o := EncodeList(e.observations) + c;
    var t := EncodeString(e.entityType) + o;
    DecodeEncodeString(e.name, t);
    DecodeEncodeString(e.entityType, o);
    DecodeEncodeList(e.observations, c);
    DecodeEncodeString(e.createdAt, v);
    assert v == v + [];
    DecodeEncodeInt(e.version, []);
  }

  lemma DecodeRelationFieldsOf(r: Relation)
    ensures DecodeRelationFields(RelationFields(r)) == Some(r)
  {
    var v := EncodeInt(r.version);
    var c := EncodeString(r.createdAt) + v;
    var k := EncodeString(r.relationType) + c;
    var t := EncodeString(r.to) + k;
    DecodeEncodeString(r.from, t);
    DecodeEncodeString(r.to, k);
    DecodeEncodeString(r.relationType, c);
    DecodeEncodeString(r.createdAt, v);
    assert v == v + [];
    DecodeEncodeInt(r.version, []);
  }

  lemma DecodeEncodeEntity(e: Entity)
    ensures DecodeLine(EncodeEntity(e)) == Some(EntityRecord(e))
  {
    DecodeEncodeString(EntityTag, EntityFields(e));
    DecodeEntityFieldsOf(e);
  }

  lemma DecodeEncodeRelation(r: Relation)
    ensures DecodeLine(EncodeRelation(r)) == Some(RelationRecord(r))
  {
    DecodeEncodeString(RelationTag, RelationFields(r));
    DecodeRelationFieldsOf(r);
  }

  /** An encoded line always holds a `;`, so `line.trim()` never empties it. */
  lemma EncodedLineNotBlank(tag: string, rest: string)
    ensures !IsBlank(EncodeString(tag) + rest)
  {
    var line := EncodeString(tag) + rest;
    assert line[|EncodeString(tag)| - 1] == ';';
  }
}
