/**
 * `searchNodes` (src/graph/manager.ts:188-340), `getConnectedRelations` (39-55) and
 * `openNodes` (342-356) as functions of the loaded graph. The score accumulator of one entity,
 * with its loop over the tokens, is also given as a method.
 */
module Search {
  import opened KnowledgeGraph
  import opened Text

  // ================================================================ tokens

  /** The characters `[\w\d_.-]` matches without the `u` flag: ASCII letters, digits, `_`, `.`, `-`. */
  predicate IsTokenChar(c: char)
  {
    'a' <= c <= 'z' || 'A' <= c <= 'Z' || '0' <= c <= '9' || c == '_' || c == '.' || c == '-'
  }

  /** What a token of a lowercased query can hold: `[a-z0-9_.-]`. */
  predicate IsLowerTokenChar(c: char)
  {
    'a' <= c <= 'z' || '0' <= c <= '9' || c == '_' || c == '.' || c == '-'
  }

  /** `token.replace(/[^\w\d_.-]/g, '')`: the token characters of `s`, in order. */
  function StripSpecial(s: string): (r: string)
    ensures |r| <= |s|
    ensures forall c :: c in r <==> c in s && IsTokenChar(c)
    ensures Subsequence(r, s)
  {
    if s == [] then []
    else
      var rest := StripSpecial(s[1..]);
      assert forall c :: c in s <==> c == s[0] || c in s[1..];
      if IsTokenChar(s[0]) then [s[0]] + rest else rest
  }

  /** A token character is kept as many times as `s` holds it; any other character is dropped. */
  lemma {:induction false} StripSpecialCounts(s: string, c: char)
    ensures multiset(StripSpecial(s))[c] == if IsTokenChar(c) then multiset(s)[c] else 0
  {
    if s != [] {
      var rest := StripSpecial(s[1..]);
      StripSpecialCounts(s[1..], c);
      assert multiset(s) == multiset{s[0]} + multiset(s[1..]) by {
        assert s == [s[0]] + s[1..];
      }
      if IsTokenChar(s[0]) {
        assert StripSpecial(s) == [s[0]] + rest;
        assert multiset([s[0]] + rest) == multiset{s[0]} + multiset(rest);
      }
    }
  }

  /** A string made of token characters only is left as it is. */
  lemma {:induction false} StripSpecialKeeps(s: string)
    requires forall i :: 0 <= i < |s| ==> IsTokenChar(s[i])
    ensures StripSpecial(s) == s
  {
    if s != [] {
      StripSpecialKeeps(s[1..]);
      assert [s[0]] + s[1..] == s;
    }
  }

  /** `.map(strip).filter(token => token.length > 0)` over the pieces of the split query. */
  function CleanTokens(pieces: seq<string>): (r: seq<string>)
    ensures |r| <= |pieces|
    ensures forall t :: t in r <==> t != [] && exists p :: p in pieces && t == StripSpecial(p)
  {
    if pieces == [] then []
    else
      var t := StripSpecial(pieces[0]);
      var rest := CleanTokens(pieces[1..]);
      assert forall p :: p in pieces <==> p == pieces[0] || p in pieces[1..];
      if t == [] then rest else [t] + rest
  }

  /** `pieces.map(strip)`. */
  function StripAll(pieces: seq<string>): (r: seq<string>)
    ensures |r| == |pieces|
    ensures forall k :: 0 <= k < |pieces| ==> r[k] == StripSpecial(pieces[k])
  {
    if pieces == [] then [] else [StripSpecial(pieces[0])] + StripAll(pieces[1..])
  }

  /** The tokens come in the order of the pieces they were stripped from. */
  lemma {:induction false} CleanTokensInOrder(pieces: seq<string>)
    ensures Subsequence(CleanTokens(pieces), StripAll(pieces))
  {
    if pieces != [] {
      CleanTokensInOrder(pieces[1..]);
      var rest := CleanTokens(pieces[1..]);
      var all := StripAll(pieces);
      assert all[1..] == StripAll(pieces[1..]);
      if StripSpecial(pieces[0]) == [] {
        SubsequenceSkip(rest, all);
      } else {
        assert ([StripSpecial(pieces[0])] + rest)[1..] == rest;
      }
    }
  }

  /**
   * Only the empty string is dropped: every non-empty stripped piece is a token as many times as
   * it occurs, so a repeated word is scored once per occurrence.
   */
  lemma {:induction false} CleanTokensCounts(pieces: seq<string>, t: string)
    ensures multiset(CleanTokens(pieces))[t] == if t == [] then 0 else multiset(StripAll(pieces))[t]
  {
    if pieces != [] {
      var rest := CleanTokens(pieces[1..]);
      var all := StripAll(pieces);
      CleanTokensCounts(pieces[1..], t);
      assert all[1..] == StripAll(pieces[1..]);
      HeadCount(all, t);
      if StripSpecial(pieces[0]) != [] {
        var kept := [StripSpecial(pieces[0])] + rest;
        assert CleanTokens(pieces) == kept;
        HeadCount(kept, t);
        assert kept[1..] == rest;
      }
    }
  }

  /** The query's tokens: trimmed, lowercased, split on whitespace runs, stripped, non-empty. */
  function Tokenize(query: string): (r: seq<string>)
    ensures forall t :: t in r ==> t != []
  {
    CleanTokens(SplitWords(Lower(Trim(query))))
  }

  /** Every token is non-empty and made of lowercase letters, digits, `_`, `.` and `-` only. */
  lemma TokensWellFormed(query: string)
    ensures forall t :: t in Tokenize(query) ==>
      t != [] && forall i :: 0 <= i < |t| ==> IsLowerTokenChar(t[i])
  {
    var pieces := SplitWords(Lower(Trim(query)));
    forall t | t in Tokenize(query)
      ensures t != [] && forall i :: 0 <= i < |t| ==> IsLowerTokenChar(t[i])
    {
      var p :| p in pieces && t == StripSpecial(p);
      forall i | 0 <= i < |t| ensures IsLowerTokenChar(t[i]) {
        TokenCharLower(query, p, t[i]);
      }
    }
  }

  /** A character kept from a piece of the lowered query is a lowercase token character. */
  lemma TokenCharLower(query: string, p: string, c: char)
    requires p in SplitWords(Lower(Trim(query))) && c in StripSpecial(p)
    ensures IsLowerTokenChar(c)
  {
    var lowered := Lower(Trim(query));
    var pieces := SplitWords(lowered);
    assert c in p && IsTokenChar(c);
    var m :| 0 <= m < |pieces| && pieces[m] == p;
    var k :| 0 <= k < |p| && p[k] == c;
    SplitWordsCharAt(lowered, m, k);
    var j :| 0 <= j < |lowered| && lowered[j] == c;
    assert lowered[j] == LowerChar(Trim(query)[j]);
    LowerCharNotCapital(Trim(query)[j]);
  }



  // ================================================================ scoring

  /** `obsLower`: every observation lowercased. */
  function LowerAll(ss: seq<string>): (r: seq<string>)
    ensures |r| == |ss|
  {
    seq(|ss|, k requires 0 <= k < |ss| => Lower(ss[k]))
  }

  /** Some token occurs in `s`. */
  predicate SomeTokenIn(tokens: seq<string>, s: string)
  {
    exists t :: t in tokens && Contains(s, t)
  }

  /** Some token occurs in one of `ss`. */
  predicate SomeTokenInAny(tokens: seq<string>, ss: seq<string>)
  {
    exists s :: s in ss && SomeTokenIn(tokens, s)
  }

  /** Tier 7: the whole lowercased query, untrimmed, occurs in the name, the type or an observation. */
  predicate LegacyMatch(query: string, e: Entity)
  {
    var q := Lower(query);
    Contains(Lower(e.name), q) || Contains(Lower(e.entityType), q) ||
    exists o :: o in e.observations && Contains(Lower(o), q)
  }

  /** Tier 3 for one token: 70 when the name starts with it, 50 when it only occurs in it. */
  function TokenTier(token: string, name: string): (r: nat)
    ensures r <= 70
    ensures r > 0 ==> Contains(name, token)
  {
    if |token| >= 3 && Contains(name, token) then
      if StartsWith(name, token) then 70 else 50
    else 0
  }

  /** A token of three or more characters at the start of the name earns the higher tier-3 score. */
  lemma TokenTierAtStart(token: string, name: string)
    requires |token| >= 3 && StartsWith(name, token)
    ensures TokenTier(token, name) == 70
  {
    StartsWithContains(name, token);
  }

  /** Tier 3 summed over the tokens, in order. */
  function TokenTiers(tokens: seq<string>, name: string): (r: nat)
    ensures r <= 70 * |tokens|
  {
    if tokens == [] then 0
    else TokenTiers(tokens[..|tokens| - 1], name) + TokenTier(tokens[|tokens| - 1], name)
  }

  /** Tier 1: some token equals the lowercased name. */
  function NameTier(tokens: seq<string>, name: string): nat
  {
    if name in tokens then 100 else 0
  }

  /** Tier 2: the lowercased name is one of the whitespace-separated words of the lowercased query. */
  function WordTier(query: string, name: string): nat
  {
    if name in SplitWords(Lower(query)) then 90 else 0
  }

  /** Tier 4: some token occurs in the lowercased name. */
  function SubstringTier(tokens: seq<string>, name: string): nat
  {
    if SomeTokenIn(tokens, name) then 40 else 0
  }

  /** Tier 5: some token occurs in the lowercased type. */
  function TypeTier(tokens: seq<string>, e: Entity): nat
  {
    if SomeTokenIn(tokens, Lower(e.entityType)) then 20 else 0
  }

  /** Tier 6: some token occurs in some lowercased observation. */
  function ObservationTier(tokens: seq<string>, e: Entity): nat
  {
    if SomeTokenInAny(tokens, LowerAll(e.observations)) then 10 else 0
  }

  /** Tier 7, kept for backward compatibility. */
  function LegacyTier(query: string, e: Entity): nat
  {
    if LegacyMatch(query, e) then 1 else 0
  }

  /**
   * The score of one entity: the sum of the seven tiers. Tiers 2 and 7 look at the lowercased
   * query as given, not at the trimmed one the tokens come from.
   */
  function Score(tokens: seq<string>, query: string, e: Entity): (r: nat)
    ensures r <= 261 + 70 * |tokens|
  {
    var name := Lower(e.name);
    NameTier(tokens, name) + WordTier(query, name) + TokenTiers(tokens, name) +
    SubstringTier(tokens, name) + TypeTier(tokens, e) + ObservationTier(tokens, e) + LegacyTier(query, e)
  }

  /** Tier 3 contributes nothing unless some token occurs in the name. */
  lemma {:induction false} TokenTiersZero(tokens: seq<string>, name: string)
    requires !SomeTokenIn(tokens, name)
    ensures TokenTiers(tokens, name) == 0
  {
    if tokens != [] {
      var n := |tokens| - 1;
      assert tokens[n] in tokens;
      assert forall t :: t in tokens[..n] ==> t in tokens;
      TokenTiersZero(tokens[..n], name);
    }
  }

  /** An entity scores zero exactly when none of the tiers matches it. */
  lemma ScoreZeroIff(tokens: seq<string>, query: string, e: Entity)
    ensures var name := Lower(e.name);
      Score(tokens, query, e) == 0 <==>
        name !in tokens && name !in SplitWords(Lower(query)) && !SomeTokenIn(tokens, name) &&
        !SomeTokenIn(tokens, Lower(e.entityType)) && !SomeTokenInAny(tokens, LowerAll(e.observations)) &&
        !LegacyMatch(query, e)
  {
    var name := Lower(e.name);
    if !SomeTokenIn(tokens, name) {
      TokenTiersZero(tokens, name);
    }
  }

  /** The score accumulator of `searchNodes`' `map` callback, tier after tier. */
  method ScoreEntity(tokens: seq<string>, query: string, e: Entity) returns (score: nat)
    ensures score == Score(tokens, query, e)
  {
    var nameLower := Lower(e.name);
    var typeLower := Lower(e.entityType);
    var obsLower := LowerAll(e.observations);
    score := 0;
    if nameLower in tokens {
      score := score + 100;
    }
    if nameLower in SplitWords(Lower(query)) {
      score := score + 90;
    }
    var base := score;
    for k := 0 to |tokens|
      invariant score == base + TokenTiers(tokens[..k], nameLower)
    {
      var token := tokens[k];
      if |token| >= 3 && Contains(nameLower, token) {
        if StartsWith(nameLower, token) {
          score := score + 70;
        } else {
          score := score + 50;
        }
      }
      assert tokens[..k + 1][..k] == tokens[..k];
    }
    assert tokens[..|tokens|] == tokens;
    if SomeTokenIn(tokens, nameLower) {
      score := score + 40;
    }
    if SomeTokenIn(tokens, typeLower) {
      score := score + 20;
    }
    if SomeTokenInAny(tokens, obsLower) {
      score := score + 10;
    }
    if LegacyMatch(query, e) {
      score := score + 1;
    }
  }

  // ================================================================ ranking

  /** An entity with its score. */
  datatype Scored = Scored(entity: Entity, score: int)

  /** Every entity scored, in graph order. */
  function ScoreAll(tokens: seq<string>, query: string, es: seq<Entity>): seq<Scored>
  {
    seq(|es|, k requires 0 <= k < |es| => Scored(es[k], Score(tokens, query, es[k])))
  }

  /** Scoring one more entity appends its entry. */
  lemma ScoreAllNext(tokens: seq<string>, query: string, es: seq<Entity>, k: nat)
    requires k < |es|
    ensures ScoreAll(tokens, query, es[..k + 1]) ==
      ScoreAll(tokens, query, es[..k]) + [Scored(es[k], Score(tokens, query, es[k]))]
  {
    var a := ScoreAll(tokens, query, es[..k + 1]);
    var b := ScoreAll(tokens, query, es[..k]) + [Scored(es[k], Score(tokens, query, es[k]))];
    forall m | 0 <= m < |a| ensures a[m] == b[m] {
      assert es[..k + 1][m] == es[m];
    }
  }

  predicate SortedDesc(xs: seq<Scored>)
  {
    forall i, j :: 0 <= i < j < |xs| ==> xs[i].score >= xs[j].score
  }

  /** Puts `x` in front of the first element whose score does not exceed its own. */
  function Insert(x: Scored, ys: seq<Scored>): (r: seq<Scored>)
    ensures |r| == |ys| + 1
    ensures multiset(r) == multiset(ys) + multiset{x}
  {
    if ys == [] || x.score >= ys[0].score then [x] + ys
    else
      assert ys == [ys[0]] + ys[1..];
      [ys[0]] + Insert(x, ys[1..])
  }

  lemma {:induction false} InsertSorted(x: Scored, ys: seq<Scored>)
    requires SortedDesc(ys)
    ensures SortedDesc(Insert(x, ys))
  {
    if !(ys == [] || x.score >= ys[0].score) {
      var rest := Insert(x, ys[1..]);
      InsertSorted(x, ys[1..]);
      forall j | 0 <= j < |rest| ensures ys[0].score >= rest[j].score {
        assert rest[j] in multiset(rest);
        if rest[j] != x {
          assert rest[j] in multiset(ys[1..]);
          var k :| 0 <= k < |ys[1..]| && ys[1..][k] == rest[j];
          assert ys[k + 1] == rest[j];
        }
      }
      ConsSorted(ys[0], rest);
    }
  }

  /** A sorted list stays sorted when it gains a head scoring at least as much as all of it. */
  lemma ConsSorted(y: Scored, rest: seq<Scored>)
    requires SortedDesc(rest) && forall j :: 0 <= j < |rest| ==> y.score >= rest[j].score
    ensures SortedDesc([y] + rest)
  {
    var r := [y] + rest;
    forall i, j | 0 <= i < j < |r| ensures r[i].score >= r[j].score {
      assert r[j] == rest[j - 1];
      if i > 0 {
        assert r[i] == rest[i - 1];
      }
    }
  }

  /** `.sort((a, b) => b.score - a.score)`: descending by score, and stable. */
  function SortDesc(xs: seq<Scored>): (r: seq<Scored>)
    ensures |r| == |xs|
    ensures multiset(r) == multiset(xs)
    ensures SortedDesc(r)
  {
    if xs == [] then []
    else
      assert xs == [xs[0]] + xs[1..];
      InsertSorted(xs[0], SortDesc(xs[1..]));
      Insert(xs[0], SortDesc(xs[1..]))
  }

  /** The elements with score `v`, in order. */
  function WithScore(xs: seq<Scored>, v: int): seq<Scored>
  {
    if xs == [] then []
    else if xs[0].score == v then [xs[0]] + WithScore(xs[1..], v)
    else WithScore(xs[1..], v)
  }

  lemma {:induction false} InsertStable(x: Scored, ys: seq<Scored>, v: int)
    ensures WithScore(Insert(x, ys), v) == if x.score == v then [x] + WithScore(ys, v) else WithScore(ys, v)
  {
    if !(ys == [] || x.score >= ys[0].score) {
      InsertStable(x, ys[1..], v);
    }
  }

  /** The sort is stable: the entities of each score keep their relative order. */
  lemma {:induction false} SortDescStable(xs: seq<Scored>, v: int)
    ensures WithScore(SortDesc(xs), v) == WithScore(xs, v)
  {
    if xs != [] {
      SortDescStable(xs[1..], v);
      InsertStable(xs[0], SortDesc(xs[1..]), v);
    }
  }

  // ================================================================ selection

  /** `.filter(se => se.score >= bound)`. */
  function AtLeast(xs: seq<Scored>, bound: int): (r: seq<Scored>)
    ensures forall x :: x in r <==> x in xs && x.score >= bound
    ensures Subsequence(r, xs)
  {
    if xs == [] then []
    else
      var rest := AtLeast(xs[1..], bound);
      assert forall x :: x in xs <==> x == xs[0] || x in xs[1..];
      if xs[0].score >= bound then [xs[0]] + rest else rest
  }

  /** An entry reaching the bound keeps every copy; any other loses them all. */
  lemma {:induction false} AtLeastCounts(xs: seq<Scored>, bound: int, x: Scored)
    ensures multiset(AtLeast(xs, bound))[x] == if x.score >= bound then multiset(xs)[x] else 0
  {
    if xs != [] {
      var rest := AtLeast(xs[1..], bound);
      AtLeastCounts(xs[1..], bound, x);
      HeadCount(xs, x);
      if xs[0].score >= bound {
        var kept := [xs[0]] + rest;
        assert AtLeast(xs, bound) == kept;
        HeadCount(kept, x);
        assert kept[1..] == rest;
      }
    }
  }

  function Min(a: int, b: int): int
  {
    if a <= b then a else b
  }

  /** The score a kept entity needs when there is no high-confidence short-cut. */
  function Threshold(hasShortTokens: bool): int
  {
    if hasShortTokens then 20 else 1
  }

  /**
   * The scored entities `searchNodes` keeps: two or more high-confidence matches (score 90 or
   * more) short-cut to the best five of them; otherwise every entity reaching the threshold
   * (20 when some token is shorter than three characters, else any positive score), best first.
   */
  function Select(scored: seq<Scored>, hasShortTokens: bool): (r: seq<Scored>)
    ensures SortedDesc(r)
  {
    var high := High(scored);
    if |high| >= 2 then high[..Min(5, |high|)]
    else SortDesc(AtLeast(scored, Threshold(hasShortTokens)))
  }

  /** Whatever the selection keeps was scored. */
  lemma SelectFromScored(scored: seq<Scored>, hasShortTokens: bool)
    ensures forall x :: x in Select(scored, hasShortTokens) ==> x in scored
  {
    var high := High(scored);
    var kept := SortDesc(AtLeast(scored, Threshold(hasShortTokens)));
    forall x | x in Select(scored, hasShortTokens) ensures x in scored {
      if |high| >= 2 {
        assert x in high;
      } else {
        assert x in multiset(kept);
      }
    }
  }

  /** The high-confidence matches, best first. */
  function High(scored: seq<Scored>): (r: seq<Scored>)
    ensures forall x :: x in r <==> x in scored && x.score >= 90
  {
    var high := SortDesc(AtLeast(scored, 90));
    assert forall x :: x in high <==> x in multiset(high);
    high
  }

  /**
   * With two or more high-confidence matches, the result is the first `min(5, k)` of the `k`
   * matches scoring 90 or more, best first (`slice(0, 5)`).
   */
  lemma SelectShortcut(scored: seq<Scored>, hasShortTokens: bool)
    requires |AtLeast(scored, 90)| >= 2
    ensures var r := Select(scored, hasShortTokens);
      |r| == Min(5, |AtLeast(scored, 90)|) && r == High(scored)[..|r|] &&
      forall i :: 0 <= i < |r| ==> r[i].score >= 90
  {
    var high := High(scored);
    var r := Select(scored, hasShortTokens);
    assert r == high[..Min(5, |high|)];
    forall i | 0 <= i < |r| ensures r[i].score >= 90 {
      assert r[i] == high[i] && high[i] in high;
    }
  }

  /** A high-confidence match the short-cut leaves out scores no more than any kept one. */
  lemma SelectShortcutTop(scored: seq<Scored>, hasShortTokens: bool, y: Scored, i: nat)
    requires |AtLeast(scored, 90)| >= 2
    requires y in scored && y.score >= 90 && y !in Select(scored, hasShortTokens)
    requires i < |Select(scored, hasShortTokens)|
    ensures y.score <= Select(scored, hasShortTokens)[i].score
  {
    var high := High(scored);
    var r := Select(scored, hasShortTokens);
    SelectShortcut(scored, hasShortTokens);
    assert y in high;
    var j :| 0 <= j < |high| && high[j] == y;
    assert forall k :: 0 <= k < |r| ==> r[k] == high[k];
    assert j >= |r|;
    assert r[i] == high[i];
  }

  /**
   * Without the short-cut, the result holds exactly the entities that reach the threshold,
   * best first.
   */
  lemma SelectThreshold(scored: seq<Scored>, hasShortTokens: bool)
    requires |AtLeast(scored, 90)| < 2
    ensures var r := Select(scored, hasShortTokens);
      forall x :: x in r <==> x in scored && x.score >= Threshold(hasShortTokens)
  {
    var kept := SortDesc(AtLeast(scored, Threshold(hasShortTokens)));
    assert forall x :: x in kept <==> x in multiset(AtLeast(scored, Threshold(hasShortTokens)));
  }

  // ================================================================ results

  function EntitiesOf(xs: seq<Scored>): (r: seq<Entity>)
    ensures |r| == |xs|
  {
    seq(|xs|, k requires 0 <= k < |xs| => xs[k].entity)
  }

  /** `new Set(entities.map(e => e.name))`. */
  function NameSet(es: seq<Entity>): set<string>
  {
    set e | e in es :: e.name
  }

  /** `getConnectedRelations`: the relations with either endpoint among the names, in graph order. */
  function ConnectedRelations(names: set<string>, rs: seq<Relation>): (r: seq<Relation>)
    ensures forall x :: x in r <==> x in rs && (x.from in names || x.to in names)
    ensures Subsequence(r, rs)
  {
    if rs == [] then []
    else
      var rest := ConnectedRelations(names, rs[1..]);
      assert forall x :: x in rs <==> x == rs[0] || x in rs[1..];
      if rs[0].from in names || rs[0].to in names then [rs[0]] + rest else rest
  }

  /** A relation touching a name keeps every copy; any other loses them all. */
  lemma {:induction false} ConnectedRelationsCounts(names: set<string>, rs: seq<Relation>, x: Relation)
    ensures multiset(ConnectedRelations(names, rs))[x] ==
      if x.from in names || x.to in names then multiset(rs)[x] else 0
  {
    if rs != [] {
      var rest := ConnectedRelations(names, rs[1..]);
      ConnectedRelationsCounts(names, rs[1..], x);
      HeadCount(rs, x);
      if rs[0].from in names || rs[0].to in names {
        var kept := [rs[0]] + rest;
        assert ConnectedRelations(names, rs) == kept;
        HeadCount(kept, x);
        assert kept[1..] == rest;
      }
    }
  }

  /** `tokens.some(token => token.length < 3)`. */
  predicate HasShortToken(tokens: seq<string>)
  {
    exists t :: t in tokens && |t| < 3
  }

  /** `ScoreAll` pairs every stored entity with its score, and holds nothing else. */
  lemma ScoreAllMembers(tokens: seq<string>, query: string, es: seq<Entity>)
    ensures forall x: Scored :: x in ScoreAll(tokens, query, es) <==> x.entity in es && x.score == Score(tokens, query, x.entity)
  {
    var scored := ScoreAll(tokens, query, es);
    forall x | x in scored ensures x.entity in es && x.score == Score(tokens, query, x.entity) {
      var k :| 0 <= k < |scored| && scored[k] == x;
    }
    forall x: Scored | x.entity in es && x.score == Score(tokens, query, x.entity) ensures x in scored {
      var j :| 0 <= j < |es| && es[j] == x.entity;
      assert scored[j] == x;
    }
  }

  /** The entities kept for a non-blank query with the given tokens, best first. */
  function Pick(es: seq<Entity>, tokens: seq<string>, query: string): seq<Entity>
  {
    EntitiesOf(Select(ScoreAll(tokens, query, es), HasShortToken(tokens)))
  }

  /**
   * `searchNodes` on a loaded graph: a blank query gives the empty graph; otherwise the kept
   * entities, best first, with every relation that touches one of them.
   */
  function SearchNodes(g: Graph, query: string): (r: Graph)
    ensures r.entities == [] ==> r.relations == []
    ensures forall x :: x in r.relations ==>
      x in g.relations && (x.from in NameSet(r.entities) || x.to in NameSet(r.entities))
  {
    if Trim(query) == [] then EmptyGraph
    else
      var found := Pick(g.entities, Tokenize(query), query);
      if found == [] then EmptyGraph
      else Graph(found, ConnectedRelations(NameSet(found), g.relations))
  }

  /** `graph.entities.map(...)`: every stored entity scored, one after the other. */
  method ScoreEntities(tokens: seq<string>, query: string, es: seq<Entity>) returns (scored: seq<Scored>)
    ensures scored == ScoreAll(tokens, query, es)
  {
    scored := [];
    for k := 0 to |es|
      invariant scored == ScoreAll(tokens, query, es[..k])
    {
      var score := ScoreEntity(tokens, query, es[k]);
      ScoreAllNext(tokens, query, es, k);
      scored := scored + [Scored(es[k], score)];
    }
    assert es[..|es|] == es;
  }

  /** `searchNodes` once the graph is loaded: the blank check, the scoring and the selection. */
  method SearchLoaded(g: Graph, query: string) returns (r: Graph)
    ensures r == SearchNodes(g, query)
  {
    if Trim(query) == [] {
      return EmptyGraph;
    }
    var tokens := Tokenize(query);
    var scored := ScoreEntities(tokens, query, g.entities);
    var found := EntitiesOf(Select(scored, HasShortToken(tokens)));
    if found == [] {
      return EmptyGraph;
    }
    return Graph(found, ConnectedRelations(NameSet(found), g.relations));
  }

  /** Each kept entity is stored, and is kept with its own score. */
  lemma PickScored(es: seq<Entity>, tokens: seq<string>, query: string)
    ensures var picked := Select(ScoreAll(tokens, query, es), HasShortToken(tokens));
      forall k :: 0 <= k < |picked| ==>
        picked[k].entity in es && picked[k].score == Score(tokens, query, picked[k].entity)
  {
    var scored := ScoreAll(tokens, query, es);
    var picked := Select(scored, HasShortToken(tokens));
    SelectFromScored(scored, HasShortToken(tokens));
    ScoreAllMembers(tokens, query, es);
    forall k | 0 <= k < |picked|
      ensures picked[k].entity in es && picked[k].score == Score(tokens, query, picked[k].entity)
    {
      assert picked[k] in picked;
    }
  }

  /** A non-blank query keeps what `Pick` keeps. */
  lemma SearchNodesEntities(g: Graph, query: string)
    requires Trim(query) != []
    ensures SearchNodes(g, query).entities == Pick(g.entities, Tokenize(query), query)
  {
  }

  /**
   * The search result holds stored entities only, and exactly the stored relations with an
   * endpoint among their names.
   */
  lemma SearchNodesSound(g: Graph, query: string)
    ensures var r := SearchNodes(g, query);
      (forall e :: e in r.entities ==> e in g.entities) &&
      (forall x :: x in r.relations <==>
        x in g.relations && (x.from in NameSet(r.entities) || x.to in NameSet(r.entities)))
  {
    if Trim(query) != [] {
      var tokens := Tokenize(query);
      PickScored(g.entities, tokens, query);
      var found := Pick(g.entities, tokens, query);
      forall e | e in found ensures e in g.entities {
        var k :| 0 <= k < |found| && found[k] == e;
      }
    }
  }

  /** An empty or blank query finds nothing. */
  lemma SearchBlankQuery(g: Graph, query: string)
    requires IsBlank(query)
    ensures SearchNodes(g, query) == EmptyGraph
  {
    TrimEmptyIffBlank(query);
  }

  /** The kept entities come best first: their scores never increase along the result. */
  lemma PickRanked(es: seq<Entity>, tokens: seq<string>, query: string)
    ensures var found := Pick(es, tokens, query);
      forall i, j :: 0 <= i < j < |found| ==> Score(tokens, query, found[i]) >= Score(tokens, query, found[j])
  {
    PickScored(es, tokens, query);
  }

  /**
   * Without the high-confidence short-cut, exactly the stored entities whose score reaches the
   * threshold are kept.
   */
  lemma PickThreshold(es: seq<Entity>, tokens: seq<string>, query: string, e: Entity)
    requires |AtLeast(ScoreAll(tokens, query, es), 90)| < 2
    ensures e in Pick(es, tokens, query) <==>
      e in es && Score(tokens, query, e) >= Threshold(HasShortToken(tokens))
  {
    if e in Pick(es, tokens, query) {
      PickThresholdSound(es, tokens, query, e);
    }
    if e in es && Score(tokens, query, e) >= Threshold(HasShortToken(tokens)) {
      PickThresholdComplete(es, tokens, query, e);
    }
  }

  lemma PickThresholdSound(es: seq<Entity>, tokens: seq<string>, query: string, e: Entity)
    requires |AtLeast(ScoreAll(tokens, query, es), 90)| < 2
    requires e in Pick(es, tokens, query)
    ensures e in es && Score(tokens, query, e) >= Threshold(HasShortToken(tokens))
  {
    var scored := ScoreAll(tokens, query, es);
    var picked := Select(scored, HasShortToken(tokens));
    var found := Pick(es, tokens, query);
    SelectThreshold(scored, HasShortToken(tokens));
    ScoreAllMembers(tokens, query, es);
    var k :| 0 <= k < |found| && found[k] == e;
    assert picked[k] in picked;
  }

  lemma PickThresholdComplete(es: seq<Entity>, tokens: seq<string>, query: string, e: Entity)
    requires |AtLeast(ScoreAll(tokens, query, es), 90)| < 2
    requires e in es && Score(tokens, query, e) >= Threshold(HasShortToken(tokens))
    ensures e in Pick(es, tokens, query)
  {
    var scored := ScoreAll(tokens, query, es);
    var picked := Select(scored, HasShortToken(tokens));
    var found := Pick(es, tokens, query);
    SelectThreshold(scored, HasShortToken(tokens));
    ScoreAllMembers(tokens, query, es);
    var x := Scored(e, Score(tokens, query, e));
    assert x in scored;
    assert x in picked;
    var k :| 0 <= k < |picked| && picked[k] == x;
    assert found == EntitiesOf(picked);
    assert found[k] == e;
  }

  // ================================================================ openNodes

  /** `entities.filter(e => names.includes(e.name))`. */
  function KeepNamed(es: seq<Entity>, names: seq<string>): (r: seq<Entity>)
    ensures forall e :: e in r <==> e in es && e.name in names
    ensures Subsequence(r, es)
  {
    if es == [] then []
    else
      var rest := KeepNamed(es[1..], names);
      assert forall e :: e in es <==> e == es[0] || e in es[1..];
      if es[0].name in names then [es[0]] + rest else rest
  }

  /** A listed entity keeps every copy; any other loses them all. */
  lemma {:induction false} KeepNamedCounts(es: seq<Entity>, names: seq<string>, e: Entity)
    ensures multiset(KeepNamed(es, names))[e] == if e.name in names then multiset(es)[e] else 0
  {
    if es != [] {
      var rest := KeepNamed(es[1..], names);
      KeepNamedCounts(es[1..], names, e);
      HeadCount(es, e);
      if es[0].name in names {
        var kept := [es[0]] + rest;
        assert KeepNamed(es, names) == kept;
        HeadCount(kept, e);
        assert kept[1..] == rest;
      }
    }
  }

  /** The relations with both endpoints among the names, in graph order. */
  function InnerRelations(names: set<string>, rs: seq<Relation>): (r: seq<Relation>)
    ensures forall x :: x in r <==> x in rs && x.from in names && x.to in names
    ensures Subsequence(r, rs)
  {
    if rs == [] then []
    else
      var rest := InnerRelations(names, rs[1..]);
      assert forall x :: x in rs <==> x == rs[0] || x in rs[1..];
      if rs[0].from in names && rs[0].to in names then [rs[0]] + rest else rest
  }

  /** A relation with both endpoints named keeps every copy; any other loses them all. */
  lemma {:induction false} InnerRelationsCounts(names: set<string>, rs: seq<Relation>, x: Relation)
    ensures multiset(InnerRelations(names, rs))[x] ==
      if x.from in names && x.to in names then multiset(rs)[x] else 0
  {
    if rs != [] {
      var rest := InnerRelations(names, rs[1..]);
      InnerRelationsCounts(names, rs[1..], x);
      HeadCount(rs, x);
      if rs[0].from in names && rs[0].to in names {
        var kept := [rs[0]] + rest;
        assert InnerRelations(names, rs) == kept;
        HeadCount(kept, x);
        assert kept[1..] == rest;
      }
    }
  }

  /**
   * `openNodes`: the stored entities whose name is listed, in graph order, and the relations
   * with both endpoints among the names of those entities.
   */
  function OpenNodes(g: Graph, names: seq<string>): (r: Graph)
    ensures forall e :: e in r.entities <==> e in g.entities && e.name in names
    ensures forall x :: x in r.relations <==>
      x in g.relations && x.from in NameSet(r.entities) && x.to in NameSet(r.entities)
    ensures Subsequence(r.entities, g.entities) && Subsequence(r.relations, g.relations)
  {
    var found := KeepNamed(g.entities, names);
    Graph(found, InnerRelations(NameSet(found), g.relations))
  }

  /** `openNodes` keeps every copy of what it returns: both lists are the filters, counts included. */
  lemma OpenNodesCounts(g: Graph, names: seq<string>, e: Entity, x: Relation)
    ensures var r := OpenNodes(g, names); var found := NameSet(r.entities);
      multiset(r.entities)[e] == (if e.name in names then multiset(g.entities)[e] else 0) &&
      multiset(r.relations)[x] == (if x.from in found && x.to in found then multiset(g.relations)[x] else 0)
  {
    var found := KeepNamed(g.entities, names);
    KeepNamedCounts(g.entities, names, e);
    InnerRelationsCounts(NameSet(found), g.relations, x);
  }

  /** Every relation `openNodes` returns is also one `getConnectedRelations` would return. */
  lemma OpenNodesWithinConnected(g: Graph, names: seq<string>)
    ensures var r := OpenNodes(g, names);
      forall x :: x in r.relations ==> x in ConnectedRelations(NameSet(r.entities), g.relations)
  {
  }

  const A := Entity("A", "T", [], "", 1)
  const B := Entity("B", "T", [], "", 1)
  const C := Entity("C", "T", [], "", 1)
  const AtoB := Relation("A", "B", "r", "", 1)

  /**
   * The two closures differ: with `A -> B` stored, opening `A` and `C` returns no relation,
   * while the either-endpoint closure of the same names returns `A -> B`.
   */
  lemma ClosuresDiffer()
    ensures var g := Graph([A, B, C], [AtoB]);
      OpenNodes(g, ["A", "C"]) == Graph([A, C], []) &&
      ConnectedRelations(NameSet([A, C]), g.relations) == [AtoB]
  {
    var names := ["A", "C"];
    assert [A, B, C][1..] == [B, C] && [B, C][1..] == [C] && [C][1..] == [];
    assert KeepNamed([C], names) == [C];
    assert KeepNamed([B, C], names) == [C];
    assert KeepNamed([A, B, C], names) == [A, C];
    assert "B" !in NameSet([A, C]);
    assert "A" in NameSet([A, C]) by { assert A in [A, C]; }
  }

  // ================================================================ the search fixture

  const WidgetName := "modern_conversion_result_widget.dart"
  const Widget := Entity(WidgetName, "File", ["Widget for displaying conversion results"], "", 1)
  const Legacy := Entity("legacy_widget.dart", "File", ["Legacy widget"], "", 1)
  const Plan := Entity("Plan", "Document", ["Project plan document"], "", 1)
  const PlanReferences := Relation("Plan", WidgetName, "references", "", 1)
  const LegacyRelated := Relation("legacy_widget.dart", WidgetName, "related_to", "", 1)
  const Fixture := Graph([Widget, Legacy, Plan], [PlanReferences, LegacyRelated])

  lemma NotContainedTooLong(s: string, t: string)
    requires |t| > |s|
    ensures !Contains(s, t)
  {
  }

  /** `t` does not occur in `s` when its first character appears at none of the positions it could start at. */
  lemma NotContainedAt(s: string, t: string)
    requires t != [] && forall i :: 0 <= i && i + |t| <= |s| ==> s[i] != t[0]
    ensures !Contains(s, t)
  {
    forall i: nat | i <= |s| ensures !OccursAt(s, t, i) {
      if i + |t| <= |s| {
        assert s[i..i + |t|][0] == s[i];
      }
    }
  }

  /** The widget file's name is made of lowercase token characters only. */
  lemma WidgetNameChars()
    ensures forall i :: 0 <= i < |WidgetName| ==> IsLowerTokenChar(WidgetName[i])
  {
  }

  /**
   * A query made of lowercase token characters only is left alone by trimming and lowercasing,
   * and is one whitespace-separated word.
   */
  lemma OneWord(query: string)
    requires forall i :: 0 <= i < |query| ==> IsLowerTokenChar(query[i])
    ensures Lower(query) == query && SplitWords(query) == [query]
  {
    NoBlankNoCapital(query);
    LowerNoCapitals(query);
    SplitWordsSingle(query);
  }

  lemma TrimWord(query: string)
    requires forall i :: 0 <= i < |query| ==> IsLowerTokenChar(query[i])
    ensures Trim(query) == query
  {
    NoBlankNoCapital(query);
    TrimNoWhitespace(query);
  }

  lemma NoBlankNoCapital(query: string)
    requires forall i :: 0 <= i < |query| ==> IsLowerTokenChar(query[i])
    ensures forall i :: 0 <= i < |query| ==> !IsWhitespace(query[i]) && !('A' <= query[i] <= 'Z')
  {
  }

  /** A non-empty piece made of token characters only is a token as it is. */
  lemma CleanTokensWord(piece: string)
    requires piece != [] && forall i :: 0 <= i < |piece| ==> IsTokenChar(piece[i])
    ensures CleanTokens([piece]) == [piece]
  {
    StripSpecialKeeps(piece);
    assert [piece][1..] == [];
  }

  /** Such a query is its own single token. */
  lemma TokenizeWord(query: string)
    requires query != [] && forall i :: 0 <= i < |query| ==> IsLowerTokenChar(query[i])
    ensures Tokenize(query) == [query]
  {
    TrimWord(query);
    OneWord(query);
    var pieces := SplitWords(Lower(Trim(query)));
    assert pieces == [query];
    CleanTokensWord(query);
  }

  /** A non-empty string of lowercase token characters. */
  predicate IsLowerToken(w: string)
  {
    w != [] && forall i :: 0 <= i < |w| ==> IsLowerTokenChar(w[i])
  }

  /** Pieces that are token strings already are the tokens, one per piece. */
  lemma {:induction false} CleanTokensWords(words: seq<string>)
    requires forall k :: 0 <= k < |words| ==> IsLowerToken(words[k])
    ensures CleanTokens(words) == words
  {
    if words != [] {
      assert forall k :: 0 <= k < |words[1..]| ==> words[1..][k] == words[k + 1];
      CleanTokensWords(words[1..]);
      assert IsLowerToken(words[0]);
      StripSpecialKeeps(words[0]);
      assert words == [words[0]] + words[1..];
    }
  }

  /** No character of lowercase token words joined by spaces is a capital letter. */
  lemma JoinedCharNotCapital(words: seq<string>, c: char)
    requires forall k :: 0 <= k < |words| ==> IsLowerToken(words[k])
    requires c in JoinWords(words)
    ensures !('A' <= c <= 'Z')
  {
    JoinWordsChars(words, c);
    if c != ' ' {
      var k :| 0 <= k < |words| && c in words[k];
      assert IsLowerToken(words[k]);
    }
  }

  /**
   * A query of lowercase token words separated by single spaces tokenizes to exactly those words,
   * repeats included: `"foo foo"` has the two tokens `"foo"` and `"foo"`.
   */
  lemma TokenizeWords(words: seq<string>)
    requires |words| >= 1 && forall k :: 0 <= k < |words| ==> IsLowerToken(words[k])
    ensures Tokenize(JoinWords(words)) == words
  {
    var query := JoinWords(words);
    forall k | 0 <= k < |words| ensures IsWord(words[k]) {
      assert IsLowerToken(words[k]);
      NoBlankNoCapital(words[k]);
    }
    JoinWordsEnds(words);
    assert TrimStart(query) == query;
    assert Trim(query) == query;
    forall i | 0 <= i < |query| ensures !('A' <= query[i] <= 'Z') {
      JoinedCharNotCapital(words, query[i]);
    }
    LowerNoCapitals(query);
    SplitJoinWords(words);
    CleanTokensWords(words);
  }

  // Tier by tier, for a query that is one lowercase word and its own only token.

  lemma TokenTiersSelf(query: string)
    requires |query| >= 3
    ensures TokenTiers([query], query) == 70
  {
    var tokens := [query];
    assert OccursAt(query, query, 0);
    assert StartsWith(query, query);
    assert tokens[..0] == [];
  }

  lemma SubstringTierSelf(query: string)
    ensures SubstringTier([query], query) == 40
  {
    assert OccursAt(query, query, 0);
    assert query in [query] && Contains(query, query);
  }

  lemma WordTierSelf(query: string)
    requires Lower(query) == query && SplitWords(query) == [query]
    ensures WordTier(query, query) == 90
  {
  }

  lemma LegacyTierSelf(query: string, e: Entity)
    requires Lower(query) == query && Lower(e.name) == query
    ensures LegacyTier(query, e) == 1
  {
    assert OccursAt(query, query, 0);
  }

  lemma TypeTierAbsent(query: string, e: Entity)
    requires !Contains(Lower(e.entityType), query)
    ensures TypeTier([query], e) == 0
  {
  }

  lemma ObservationTierAbsent(query: string, e: Entity)
    requires forall o :: o in e.observations ==> !Contains(Lower(o), query)
    ensures ObservationTier([query], e) == 0
  {
    forall o | o in LowerAll(e.observations) ensures !SomeTokenIn([query], o) {
      var k :| 0 <= k < |e.observations| && LowerAll(e.observations)[k] == o;
      assert e.observations[k] in e.observations;
    }
  }

  /**
   * An entity named exactly as such a query, matched by neither its type nor its observations,
   * scores 100 + 90 + 70 + 40 + 1.
   */
  lemma ExactNameScore(query: string, e: Entity)
    requires Lower(query) == query && SplitWords(query) == [query] && |query| >= 3
    requires Lower(e.name) == query && !Contains(Lower(e.entityType), query)
    requires forall o :: o in e.observations ==> !Contains(Lower(o), query)
    ensures Score([query], query, e) == 301
  {
    TokenTiersSelf(query);
    SubstringTierSelf(query);
    WordTierSelf(query);
    LegacyTierSelf(query, e);
    TypeTierAbsent(query, e);
    ObservationTierAbsent(query, e);
  }

  lemma NoTokenInShorter(query: string, s: string)
    requires |s| < |query|
    ensures !SomeTokenIn([query], Lower(s))
  {
    NotContainedTooLong(Lower(s), query);
  }

  lemma NoTokenInShorterObservations(query: string, e: Entity)
    requires forall o :: o in e.observations ==> |o| < |query|
    ensures !SomeTokenInAny([query], LowerAll(e.observations))
  {
    forall o | o in LowerAll(e.observations) ensures !SomeTokenIn([query], o) {
      var k :| 0 <= k < |e.observations| && LowerAll(e.observations)[k] == o;
      assert e.observations[k] in e.observations;
      NotContainedTooLong(o, query);
    }
  }

  lemma NoLegacyMatchShorter(query: string, e: Entity)
    requires |e.name| < |query| && |e.entityType| < |query|
    requires forall o :: o in e.observations ==> |o| < |query|
    ensures !LegacyMatch(query, e)
  {
    NotContainedTooLong(Lower(e.name), Lower(query));
    NotContainedTooLong(Lower(e.entityType), Lower(query));
    forall o | o in e.observations ensures !Contains(Lower(o), Lower(query)) {
      NotContainedTooLong(Lower(o), Lower(query));
    }
  }

  /** An entity whose name, type and observations are all shorter than such a query scores zero. */
  lemma ShorterScoresZero(query: string, e: Entity)
    requires Lower(query) == query && SplitWords(query) == [query]
    requires |e.name| < |query| && |e.entityType| < |query|
    requires forall o :: o in e.observations ==> |o| < |query|
    ensures Score([query], query, e) == 0
  {
    NoTokenInShorter(query, e.name);
    NoTokenInShorter(query, e.entityType);
    NoTokenInShorterObservations(query, e);
    NoLegacyMatchShorter(query, e);
    ScoreZeroIff([query], query, e);
  }

  lemma NotContainedLowered(s: string, t: string)
    requires t != [] && forall i :: 0 <= i && i + |t| <= |s| ==> LowerChar(s[i]) != t[0]
    ensures !Contains(Lower(s), t)
  {
    NotContainedAt(Lower(s), t);
  }

  /** "widget for displaying conversion results" has no `m` where the 36-character name could start. */
  lemma WidgetObservationMisses()
    ensures !Contains(Lower("Widget for displaying conversion results"), WidgetName)
  {
    var observation := "Widget for displaying conversion results";
    assert |observation| == 40 && |WidgetName| == 36 && WidgetName[0] == 'm';
    assert forall i :: 0 <= i <= 4 ==> LowerChar(observation[i]) != 'm';
    NotContainedLowered(observation, WidgetName);
  }

  lemma SingletonMisses(query: string, s: string)
    requires !Contains(Lower(s), query)
    ensures forall o :: o in [s] ==> !Contains(Lower(o), query)
  {
  }

  lemma WidgetObservationsMiss()
    ensures forall o :: o in Widget.observations ==> !Contains(Lower(o), WidgetName)
  {
    WidgetObservationMisses();
    SingletonMisses(WidgetName, "Widget for displaying conversion results");
  }

  /** An entity whose name, type and observations are all shorter than the query. */
  predicate ShorterThan(e: Entity, query: string)
  {
    |e.name| < |query| && |e.entityType| < |query| && forall o :: o in e.observations ==> |o| < |query|
  }

  lemma ScoreAllThree(tokens: seq<string>, query: string, a: Entity, b: Entity, c: Entity)
    ensures ScoreAll(tokens, query, [a, b, c]) ==
      [Scored(a, Score(tokens, query, a)), Scored(b, Score(tokens, query, b)), Scored(c, Score(tokens, query, c))]
  {
  }

  /** Of three scored entities, one with a positive score and two at zero, only the first is kept. */
  lemma SelectLone(a: Scored, b: Scored, c: Scored)
    requires a.score >= 1 && b.score == 0 && c.score == 0
    ensures Select([a, b, c], false) == [a]
  {
    var xs := [a, b, c];
    assert xs[1..] == [b, c] && [b, c][1..] == [c] && [c][1..] == [];
    assert AtLeast([c], 90) == [] && AtLeast([b, c], 90) == [];
    assert |AtLeast(xs, 90)| <= 1;
    assert AtLeast([c], 1) == [] && AtLeast([b, c], 1) == [];
    assert AtLeast(xs, 1) == [a];
    assert SortDesc([a]) == [a];
  }

  /** Relations that all end at a name of the set are all connected to it. */
  lemma {:induction false} ConnectedAll(names: set<string>, name: string, rs: seq<Relation>)
    requires name in names && forall k :: 0 <= k < |rs| ==> rs[k].to == name
    ensures ConnectedRelations(names, rs) == rs
  {
    if rs != [] {
      ConnectedAll(names, name, rs[1..]);
      assert [rs[0]] + rs[1..] == rs;
    }
  }

  /**
   * When a non-blank query keeps one entity, and every stored relation ends at it, the search
   * returns that entity with every relation.
   */
  lemma SearchLone(g: Graph, query: string, w: Entity)
    requires !IsBlank(query) && Pick(g.entities, Tokenize(query), query) == [w]
    requires forall k :: 0 <= k < |g.relations| ==> g.relations[k].to == w.name
    ensures SearchNodes(g, query) == Graph([w], g.relations)
  {
    TrimEmptyIffBlank(query);
    assert w in [w];
    ConnectedAll(NameSet([w]), w.name, g.relations);
  }

  /** Of three stored entities, only one scoring above zero, with no short token, that one alone is kept. */
  lemma PickLone(tokens: seq<string>, query: string, w: Entity, l: Entity, p: Entity)
    requires !HasShortToken(tokens)
    requires Score(tokens, query, w) >= 1 && Score(tokens, query, l) == 0 && Score(tokens, query, p) == 0
    ensures Pick([w, l, p], tokens, query) == [w]
  {
    ScoreAllThree(tokens, query, w, l, p);
    SelectLone(Scored(w, Score(tokens, query, w)), Scored(l, 0), Scored(p, 0));
  }

  /** A query of three or more lowercase token characters, so one word and one token. */
  predicate IsWordQuery(query: string)
  {
    |query| >= 3 && forall i :: 0 <= i < |query| ==> IsLowerTokenChar(query[i])
  }

  /** The entity is named by the query, which neither its type nor any of its observations contains. */
  predicate NamedAlone(query: string, e: Entity)
  {
    e.name == query && !Contains(Lower(e.entityType), query) &&
    forall o :: o in e.observations ==> !Contains(Lower(o), query)
  }

  lemma WordQueryExactScore(query: string, e: Entity)
    requires IsWordQuery(query) && NamedAlone(query, e)
    ensures Score([query], query, e) == 301
  {
    OneWord(query);
    ExactNameScore(query, e);
  }

  lemma WordQueryShorterScore(query: string, e: Entity)
    requires IsWordQuery(query) && ShorterThan(e, query)
    ensures Score([query], query, e) == 0
  {
    OneWord(query);
    ShorterScoresZero(query, e);
  }

  /** The word query keeps the entity it names and neither of the two shorter ones. */
  lemma PickExactName(query: string, w: Entity, l: Entity, p: Entity)
    requires IsWordQuery(query) && NamedAlone(query, w) && ShorterThan(l, query) && ShorterThan(p, query)
    ensures Pick([w, l, p], [query], query) == [w]
  {
    WordQueryExactScore(query, w);
    WordQueryShorterScore(query, l);
    WordQueryShorterScore(query, p);
    assert !HasShortToken([query]);
    PickLone([query], query, w, l, p);
  }

  /**
   * Of three stored entities, a word query naming the first, which neither its type nor its
   * observations contain, while the other two are too short to contain the query, finds the
   * first alone, with every relation when they all point at it.
   */
  lemma SearchExactNameOfThree(query: string, w: Entity, l: Entity, p: Entity, rs: seq<Relation>)
    requires IsWordQuery(query) && NamedAlone(query, w) && ShorterThan(l, query) && ShorterThan(p, query)
    requires forall k :: 0 <= k < |rs| ==> rs[k].to == query
    ensures SearchNodes(Graph([w, l, p], rs), query) == Graph([w], rs)
  {
    assert !IsWhitespace(query[0]);
    TokenizeWord(query);
    PickExactName(query, w, l, p);
    SearchLone(Graph([w, l, p], rs), query, w);
  }

  /**
   * Searching the fixture for the widget file's exact name finds that one entity and both
   * relations pointing at it.
   */
  lemma SearchExactName()
    ensures SearchNodes(Fixture, WidgetName) == Graph([Widget], [PlanReferences, LegacyRelated])
  {
    WidgetNameChars();
    NotContainedTooLong(Lower("File"), WidgetName);
    WidgetObservationsMiss();
    assert IsWordQuery(WidgetName) && NamedAlone(WidgetName, Widget);
    assert ShorterThan(Legacy, WidgetName) && ShorterThan(Plan, WidgetName);
    SearchExactNameOfThree(WidgetName, Widget, Legacy, Plan, Fixture.relations);
  }
}
