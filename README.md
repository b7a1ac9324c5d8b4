# Knowledge-graph memory engine, modelled in Dafny

This project models `KnowledgeGraphManager` (src/graph/manager.ts). It is the engine of a
persistent "memory" for a language-model tool server. The memory holds three kinds of data:

- **entities**: a name, a type, a list of observation strings, a `createdAt` stamp and a `version`;
- **relations**: `from`, `to` and `relationType`, plus `createdAt` and `version`;
- the **graph**: both lists together.

Everything lives in one text file, one record per line. Every public operation does the same
three steps:

1. load the file;
2. work on the loaded graph;
3. write the whole graph back.

Search, `openNodes` and `readGraph` only load.

## Modules

| file | module | contents |
|---|---|---|
| `wrappers.dfy` | `Wrappers` | `Option` and `Result` |
| `knowledge_graph.dfy` | `KnowledgeGraph` | the three record types; the relation key `(from, to, relationType)`; the uniqueness notions |
| `text.dfy` | `Text` | the JavaScript string primitives the engine uses, over `seq<char>` |
| `record_codec.dfy` | `RecordCodec` | the per-line record encoding; one encoded line decodes back to its record |
| `store.dfy` | `Store` | `loadGraph` and `saveGraph` |
| `graph_ops.dfy` | `GraphOps` | the graph transformations of the CRUD operations, as functions, with their properties |
| `search.dfy` | `Search` | `searchNodes`, `getConnectedRelations` and `openNodes` as functions of the loaded graph; the score accumulator and the per-entity scoring as methods; the search test fixture |
| `manager.dfy` | `Manager` | the class `KnowledgeGraphManager`, whose one field is the memory file |

How the class methods are written:

- Each method follows the source's steps.
- `addObservations`, `deleteObservations` and the second pass of `updateEntities` and
  `updateRelations` are loops over a local copy of the loaded graph.
- Each method's postcondition states:
  - the error returned when the load or the operation fails, with the file left untouched;
  - otherwise, the exact new file contents and the graph they load back to.

## Model

| member | source | states |
|---|---|---|
| Text.TrimEmptyIffBlank | src/graph/manager.ts:194 | a string trims to "" exactly when every character is whitespace, in both directions |
| Text.TrimStart | src/graph/manager.ts:199 | the result is a suffix of the input; the part removed is all whitespace; the result does not start with whitespace |
| Text.TrimEnd | src/graph/manager.ts:199 | the result is a prefix of the input; the part removed is all whitespace; the result does not end with whitespace |
| Text.Lower | src/graph/manager.ts:210-212 | same length; every character is mapped by the ASCII lowercase mapping |
| Text.StartsWithContains | src/graph/manager.ts:240-242 | a name that starts with a token also contains it, so a start match always passes the `includes` guard |
| Text.SplitLines | src/graph/manager.ts:60 | `split("\n")` gives at least one piece, and no piece holds a newline |
| Text.SplitJoinLines | src/graph/manager.ts:57-81 | splitting on newlines what `join("\n")` produced gives back the same lines, when no line holds a newline |
| Text.SplitWordsNoWhitespace | src/graph/manager.ts:203 | no piece of `split(/\s+/)` contains whitespace |
| Text.SplitWordsChars | src/graph/manager.ts:203 | every character of every piece comes from the split string |
| Text.SplitWordsSingle | src/graph/manager.ts:203 | a string with no whitespace splits into itself alone |
| Text.SplitJoinWords | src/graph/manager.ts:203 | splitting non-empty, whitespace-free words joined by single spaces gives back every word, in order, repeats included |
| RecordCodec.DecodeEncodeString | src/graph/manager.ts:75-78 | an escaped string field reads back as itself, with whatever follows it untouched |
| RecordCodec.DecodeEncodeList | src/graph/manager.ts:75-78 | a list of strings (an entity's observations) reads back as itself, in order |
| RecordCodec.DecodeEncodeInt | src/graph/manager.ts:75-78 | an integer field (`version`) reads back as itself, negative values included |
| RecordCodec.DecodeEncodeEntity | src/graph/manager.ts:75-81 | an entity line decodes back to that entity, with the tag "entity" |
| RecordCodec.DecodeLine | src/graph/manager.ts:62-64 | the stand-in for `JSON.parse` plus the `type` test; DecodeEncodeEntity and DecodeEncodeRelation prove it inverts the writer |
| RecordCodec.DecodeEncodeRelation | src/graph/manager.ts:75-81 | a relation line decodes back to that relation, with the tag "relation" |
| RecordCodec.EncodedLineNotBlank | src/graph/manager.ts:75-81 | a written record line is never blank and holds no newline |
| Store.Load | src/graph/manager.ts:57-73 | a missing file loads as the empty graph; the only way a load fails is a malformed line |
| Store.Collect | src/graph/manager.ts:61-66 | the `reduce`: a successful fold yields no more records than it read lines (Store.CollectFails gives its failure cases) |
| Store.Save | src/graph/manager.ts:75-81 | `saveGraph`: the entity lines, then the relation lines, joined by newlines; Store.LoadSave proves it reads back |
| Store.CollectFails | src/graph/manager.ts:60-65 | the record fold fails exactly when some non-blank line does not parse |
| Store.CollectRecordLines | src/graph/manager.ts:57-81 | folding the saved entity lines followed by the saved relation lines yields exactly those entities and relations |
| Store.LoadJoined | src/graph/manager.ts:59-60 | lines free of newlines and not blank, joined by newlines, are read back as the same lines |
| Store.RecordLinesClean | src/graph/manager.ts:75-80 | every line `saveGraph` writes is free of newlines and not blank |
| Store.LoadSave | src/graph/manager.ts:57-81 | round trip: loading what `saveGraph` wrote gives back the same entities and relations, each in their original order |
| Store.BlankLineSkipped | src/graph/manager.ts:60 | inserting a blank line anywhere in the file changes nothing the load sees |
| Store.UnknownTagIgnored | src/graph/manager.ts:62-64 | a well-formed record whose tag is neither "entity" nor "relation" changes nothing |
| GraphOps.FindEntity | src/graph/manager.ts:115 | `find` by name: the first index holding the name; None exactly when no entity has it |
| GraphOps.FindRelation | src/graph/manager.ts:387-391 | `find` by key triple: the first index with that key; None exactly when no relation has it |
| GraphOps.NewEntities | src/graph/manager.ts:85-90 | the result is exactly the stamped batch entities whose name is not already stored: nothing else is in it and none of them is missing; order and copies are given by NewEntitiesInOrder and NewEntitiesCounts |
| GraphOps.NewEntitiesStamped | src/graph/manager.ts:87-89 | every created entity has `createdAt = now` and a non-zero version (`e.version \|\| 1`) |
| GraphOps.NewEntitiesInOrder | src/graph/manager.ts:85-90 | the created entities keep the batch order |
| GraphOps.NewEntitiesCounts | src/graph/manager.ts:85-90 | a batch entity whose name is stored is created zero times; any other as often as the batch holds it, so `[b, b]` with a new name creates both copies |
| GraphOps.NewRelations | src/graph/manager.ts:98-106 | the result is exactly the stamped batch relations whose `(from, to, relationType)` key is not already stored: nothing else is in it and none of them is missing; order and copies are given by NewRelationsInOrder and NewRelationsCounts |
| GraphOps.NewRelationsInOrder | src/graph/manager.ts:98-106 | the created relations keep the batch order |
| GraphOps.NewRelationsCounts | src/graph/manager.ts:98-106 | a batch relation whose key is stored is created zero times; any other as often as the batch holds it |
| GraphOps.NoNewEntities | src/graph/manager.ts:85 | a batch whose names are all stored creates nothing |
| GraphOps.NoNewRelations | src/graph/manager.ts:98-102 | a batch whose keys are all stored creates nothing |
| GraphOps.CreateEntitiesIdempotent | src/graph/manager.ts:83-94 | repeating `createEntities` with the same batch, at any time, returns `[]` |
| GraphOps.CreateRelationsIdempotent | src/graph/manager.ts:96-110 | repeating `createRelations` with the same batch returns `[]` |
| GraphOps.CreateEntitiesKeepsUnique | src/graph/manager.ts:85-91 | stored names stay unique, provided the batch's own names are distinct |
| GraphOps.NewEntitiesUnique | src/graph/manager.ts:85 | the created entities have distinct names when the batch does |
| GraphOps.CreateRelationsKeepsUnique | src/graph/manager.ts:98-107 | stored keys stay unique, provided the batch's own keys are distinct |
| GraphOps.NewRelationsUnique | src/graph/manager.ts:98 | the created relations have distinct keys when the batch does |
| GraphOps.Unobserved | src/graph/manager.ts:119 | the contents not already held, and only those, kept in their order (a subsequence of the contents) |
| GraphOps.UnobservedCounts | src/graph/manager.ts:119-120 | a content already held is added zero times; any other is added as many times as the contents list it, so a duplicate is pushed twice |
| GraphOps.RemoveObservations | src/graph/manager.ts:139 | an observation survives exactly when it is not listed for deletion; the survivors keep their order |
| GraphOps.RemoveObservationsCounts | src/graph/manager.ts:139 | a listed observation loses every occurrence; any other keeps all of its occurrences |
| GraphOps.AddObservationsTo | src/graph/manager.ts:114-121 | one item fails with EntityNotFound exactly when its name is not stored; otherwise only observations change |
| GraphOps.AddObservationsToSpec | src/graph/manager.ts:119-121 | the first entity of that name gets old ++ added; the added strings are the contents not held before, in order and with their repetitions; every other entity is unchanged |
| GraphOps.AddObservationsSpec | src/graph/manager.ts:112-125 | the batch succeeds exactly when every item names a stored entity; on success there is one result per item and only observations change |
| GraphOps.AddObservations | src/graph/manager.ts:112-124 | the fold over the batch, item after item; AddObservationsSpec, AddObservationsResults and AddObservationsGrow state its behaviour |
| GraphOps.AddObservationsNext | src/graph/manager.ts:113-124 | after a successful prefix, handling item k is one more step of the fold: the `map` visits the items in order |
| GraphOps.AddObservationsResults | src/graph/manager.ts:121-124 | on success there is one result per item, and result k names the entity of item k |
| GraphOps.AddObservationsGrow | src/graph/manager.ts:112-125 | each entity's old observations are a prefix of its new ones; an entity no item names is unchanged |
| GraphOps.AddObservationsErrExtends | src/graph/manager.ts:113-118 | once a prefix of the batch fails, the whole batch fails with the same error |
| GraphOps.AddObservationsStops | src/graph/manager.ts:115-117 | the first item naming a missing entity decides the error of the whole batch |
| GraphOps.DeleteObservationsFrom | src/graph/manager.ts:136-141 | one deletion item changes only observations: same names, types, stamps and versions, in the same order |
| GraphOps.DeleteObservationsFromShrinks | src/graph/manager.ts:138-140 | observations only ever disappear: every observation left was there before |
| GraphOps.DeleteObservationsNext | src/graph/manager.ts:136-141 | the `forEach` handles item k after items 0..k-1 |
| GraphOps.DeleteObservations | src/graph/manager.ts:134-143 | never fails; names, types, stamps and versions are kept |
| GraphOps.DeleteObservationsShrink | src/graph/manager.ts:134-143 | observations are only removed; an entity no item names is unchanged |
| GraphOps.DeleteObservationsFromSpec | src/graph/manager.ts:137-140 | the first entity of the name keeps exactly its observations that are not listed |
| GraphOps.DeleteObservationsRemoves | src/graph/manager.ts:134-143 | after the batch, no observation listed for a stored name is left on that entity |
| GraphOps.KeepEntities | src/graph/manager.ts:129 | the survivors are exactly the entities whose name is not listed, in their original order, with their counts given by KeepEntitiesCounts |
| GraphOps.KeepEntitiesCounts | src/graph/manager.ts:129 | a listed entity loses every copy; any other keeps all of its copies |
| GraphOps.KeepRelations | src/graph/manager.ts:130 | the surviving relations are exactly those with neither endpoint listed, even dangling ones, in order, with their counts given by KeepRelationsCounts |
| GraphOps.KeepRelationsCounts | src/graph/manager.ts:130 | a relation touching a listed name loses every copy; any other keeps all of its copies |
| GraphOps.DeleteAbsentNames | src/graph/manager.ts:127-132 | deleting names that nothing mentions leaves the graph equal |
| GraphOps.DeleteEntitiesSpec | src/graph/manager.ts:127-132 | a well-formed graph stays well formed, and nothing left mentions a deleted name |
| GraphOps.DeleteEntities | src/graph/manager.ts:127-132 | an entity is kept exactly when its name is not listed; a relation exactly when neither endpoint is listed |
| GraphOps.KeepUnmatched | src/graph/manager.ts:147-151 | a relation is removed exactly when its triple matches some item; survivors keep their order, with their counts given by KeepUnmatchedCounts |
| GraphOps.KeepUnmatchedCounts | src/graph/manager.ts:147-151 | a relation matching an item loses every copy; any other keeps all of its copies, so an empty batch keeps `[x, x]` whole |
| GraphOps.UpdatedEntities | src/graph/manager.ts:360-371 | fails exactly when some item's name is missing, with the error UpdatedEntitiesStops fixes; otherwise each item gives the stored entity overlaid with its fields, `version + 1`, `createdAt = now` |
| GraphOps.UpdatedEntitiesStops | src/graph/manager.ts:360-364 | when item k is the first whose name is missing, the batch fails with `EntityNotFound` of that name |
| GraphOps.Overlay | src/graph/manager.ts:365-370 | the record spread: the update's fields over the stored ones, `version + 1`, `createdAt = now`; UpdatedEntities states it per item |
| GraphOps.UpdatedRelations | src/graph/manager.ts:386-401 | fails with "Relation not found" exactly when some key is missing; otherwise each item gives the stored relation with `version + 1` and `createdAt = now` |
| GraphOps.ApplyEntityUpdates | src/graph/manager.ts:373-378 | the entity list keeps its length and every position keeps its name |
| GraphOps.ApplyRelationUpdates | src/graph/manager.ts:403-412 | the relation list keeps its length and every position keeps its key |
| GraphOps.ApplyEntityUpdatesUnmentioned | src/graph/manager.ts:373-378 | an entity whose name no updated record carries is unchanged |
| GraphOps.ApplyEntityUpdatesLands | src/graph/manager.ts:373-378 | the first entity of a name carried by exactly one updated record becomes that record |
| GraphOps.ApplyRelationUpdatesUnmentioned | src/graph/manager.ts:403-412 | a relation whose key no updated record carries is unchanged |
| GraphOps.ApplyRelationUpdatesLands | src/graph/manager.ts:403-412 | the first relation of a key carried by exactly one updated record becomes that record |
| Search.StripSpecial | src/graph/manager.ts:204 | keeps only token characters, every token character of the input appears, and the kept ones stay in order (a subsequence) |
| Search.StripSpecialCounts | src/graph/manager.ts:204 | each token character is kept as many times as the input holds it; any other character is dropped |
| Search.StripSpecialKeeps | src/graph/manager.ts:204 | a string of token characters only is left as it is |
| Search.Tokenize | src/graph/manager.ts:197-205 | every token is non-empty; Search.TokensWellFormed gives its character set |
| Search.CleanTokens | src/graph/manager.ts:202-205 | a token is exactly a non-empty stripped piece; order and counts are given by CleanTokensInOrder and CleanTokensCounts |
| Search.CleanTokensInOrder | src/graph/manager.ts:202-205 | the tokens are a subsequence of the stripped pieces |
| Search.CleanTokensCounts | src/graph/manager.ts:202-205 | only the empty string is dropped: every non-empty stripped piece is a token as often as it occurs |
| Search.TokensWellFormed | src/graph/manager.ts:199-205 | every token is non-empty and made of `[a-z0-9_.-]` only |
| Search.TokenTier | src/graph/manager.ts:241-250 | one token adds at most 70 |
| Search.TokenTierAtStart | src/graph/manager.ts:240-244 | a token of three or more characters at the start of the name earns 70 |
| Search.TokenTiers | src/graph/manager.ts:240-251 | tier 3 adds at most 70 per token |
| Search.TokenTiersZero | src/graph/manager.ts:240-251 | tier 3 adds nothing unless some token occurs in the name |
| Search.Score | src/graph/manager.ts:209-286 | 0 <= score <= 261 + 70 * number of tokens |
| Search.ScoreZeroIff | src/graph/manager.ts:226-279 | an entity scores 0 exactly when none of the seven tiers matches it; tiers 2 and 7 use the untrimmed lowercased query |
| Search.ScoreEntity | src/graph/manager.ts:209-286 | the accumulator loop computes exactly the tiered score |
| Search.ScoreEntities | src/graph/manager.ts:209 | the `map` pairs every stored entity with its score, in graph order |
| Search.ScoreAllMembers | src/graph/manager.ts:209 | the scored list holds exactly the stored entities, each with its own score |
| Search.Insert | src/graph/manager.ts:297 | inserting adds exactly one element: the length grows by one and the multiset gains it |
| Search.InsertSorted | src/graph/manager.ts:297 | inserting into a list sorted by descending score keeps it sorted |
| Search.SortDesc | src/graph/manager.ts:297 | the result is a permutation of the input, sorted by descending score |
| Search.SortDescStable | src/graph/manager.ts:309 | the sort is stable: entries of equal score keep their relative order |
| Search.AtLeast | src/graph/manager.ts:296 | keeps exactly the entries reaching the bound, in order, with their counts given by AtLeastCounts |
| Search.AtLeastCounts | src/graph/manager.ts:296 | an entry reaching the bound keeps every copy; any other loses them all |
| Search.High | src/graph/manager.ts:295-297 | the high-confidence matches are exactly the entries scoring 90 or more |
| Search.Select | src/graph/manager.ts:288-309 | the kept list is sorted by descending score |
| Search.SelectFromScored | src/graph/manager.ts:288-309 | nothing is kept that was not scored |
| Search.SelectShortcut | src/graph/manager.ts:295-301 | with k >= 2 matches scoring 90 or more, exactly the first min(5, k) of them are kept, best first |
| Search.SelectShortcutTop | src/graph/manager.ts:295-302 | a high-confidence match left out of the short-cut scores no more than any entry kept |
| Search.SelectThreshold | src/graph/manager.ts:302-309 | without the short-cut, exactly the entries reaching the threshold are kept (20 with a short token, else above 0) |
| Search.ConnectedRelations | src/graph/manager.ts:39-55 | exactly the relations with either endpoint among the names, in graph order, with their counts given by ConnectedRelationsCounts |
| Search.ConnectedRelationsCounts | src/graph/manager.ts:39-55 | a relation with an endpoint among the names keeps every copy; any other loses them all |
| Search.SearchLoaded | src/graph/manager.ts:193-339 | the blank check, the scoring loop and the selection compute the search result |
| Search.SearchBlankQuery | src/graph/manager.ts:194-196 | an empty or blank query gives the empty graph |
| Search.PickScored | src/graph/manager.ts:288-312 | every kept entity is stored and is kept with its own score |
| Search.SearchNodesEntities | src/graph/manager.ts:311-339 | a non-blank query returns the selected entities |
| Search.SearchNodesSound | src/graph/manager.ts:311-339 | result entities are stored entities; result relations are exactly the stored relations touching a result name |
| Search.SearchNodes | src/graph/manager.ts:188-340 | every returned relation is stored and touches a returned entity; no entities means no relations |
| Search.PickRanked | src/graph/manager.ts:297-309 | the result entities come best first |
| Search.PickThreshold | src/graph/manager.ts:302-312 | without the short-cut, an entity is returned exactly when it is stored and reaches the threshold |
| Search.KeepNamed | src/graph/manager.ts:345 | exactly the stored entities whose name is listed, in graph order, with their counts given by KeepNamedCounts |
| Search.KeepNamedCounts | src/graph/manager.ts:345 | a listed entity keeps every copy; any other loses them all |
| Search.InnerRelations | src/graph/manager.ts:348-350 | exactly the relations with both endpoints among the names, in graph order, with their counts given by InnerRelationsCounts |
| Search.InnerRelationsCounts | src/graph/manager.ts:348-350 | a relation with both endpoints among the names keeps every copy; any other loses them all |
| Search.OpenNodes | src/graph/manager.ts:342-356 | listed entities in graph order, and the relations with both endpoints among the returned names; counts are given by OpenNodesCounts |
| Search.OpenNodesCounts | src/graph/manager.ts:342-356 | both returned lists keep every copy of what they keep: the entity and relation filters, counts included |
| Search.OpenNodesWithinConnected | src/graph/manager.ts:342-356 | every relation `openNodes` returns is one the either-endpoint closure returns |
| Search.ClosuresDiffer | src/graph/manager.ts:342-356 | the two closures differ: with A -> B stored, opening A and C gives no relation, while the either-endpoint closure gives A -> B |
| Search.ExactNameScore | src/graph/manager.ts:226-279 | an entity named exactly as a one-word query, not matched by its type or observations, scores 100 + 90 + 70 + 40 + 1 |
| Search.ShorterScoresZero | src/graph/manager.ts:226-279 | an entity whose name, type and observations are all shorter than a one-word query scores 0 |
| Search.TokenizeWord | src/graph/manager.ts:199-205 | a query of lowercase token characters only is its own single token |
| Search.TokenizeWords | src/graph/manager.ts:199-205 | lowercase token words joined by single spaces tokenize to exactly those words, in order, repeats included |
| Search.SearchExactNameOfThree | src/graph/manager.ts:188-340 | of three entities, a one-word query naming the first (and matching nothing else) returns the first alone, with every relation pointing at it |
| Search.SearchExactName | src/graph/search.test.ts:75-117 | the test fixture searched by the widget file's exact name gives exactly that entity and both relations pointing at it |
| Manager.KnowledgeGraphManager.constructor | src/graph/manager.ts:30-34 | the manager starts on the given memory file |
| Manager.KnowledgeGraphManager.SaveGraph | src/graph/manager.ts:75-81 | the file becomes the record lines of the graph, and loads back as that graph |
| Manager.KnowledgeGraphManager.CreateEntities | src/graph/manager.ts:83-94 | returns the created entities; the stored entity list becomes old ++ returned; a failed load changes nothing |
| Manager.KnowledgeGraphManager.CreateRelations | src/graph/manager.ts:96-110 | returns the created relations; the stored relation list becomes old ++ returned |
| Manager.KnowledgeGraphManager.AddObservations | src/graph/manager.ts:112-125 | all or nothing: the first missing name returns its error and leaves the file untouched; otherwise it returns the results and stores the updated entities |
| Manager.KnowledgeGraphManager.DeleteEntities | src/graph/manager.ts:127-132 | stores the graph without the named entities and without every relation touching them |
| Manager.KnowledgeGraphManager.DeleteObservations | src/graph/manager.ts:134-143 | the item-by-item loop stores the entities with the listed observations removed; missing names are skipped |
| Manager.KnowledgeGraphManager.DeleteRelations | src/graph/manager.ts:145-153 | stores the relations that match no item |
| Manager.KnowledgeGraphManager.ReadGraph | src/graph/manager.ts:155-157 | returns what the load gives, and changes nothing |
| Manager.KnowledgeGraphManager.SearchNodes | src/graph/manager.ts:188-196 | loads first (a malformed file fails even a blank query), then returns the search result of the loaded graph |
| Manager.KnowledgeGraphManager.OpenNodes | src/graph/manager.ts:342-356 | returns `openNodes` of the loaded graph |
| Manager.KnowledgeGraphManager.UpdateEntities | src/graph/manager.ts:358-382 | all or nothing: a missing name returns its error and leaves the file untouched; otherwise it returns the updated records and stores them over the first entity of each name |
| Manager.KnowledgeGraphManager.UpdateRelations | src/graph/manager.ts:384-416 | all or nothing: a missing key returns "Relation not found"; otherwise it returns the updated records and stores them over the first relation of each key |

## Left out

- File I/O is not modelled:
  - the file is a field holding `Option<string>`, and `None` stands for the ENOENT case;
  - a read or write error other than a missing file is not modelled;
  - so is any process crash between load and save.
- `JSON.stringify` and `JSON.parse` are replaced by a concrete encoding:
  - each field is escaped and `;`-terminated, after a tag field;
  - it is proved to decode back, and never to produce a newline or a blank line.
- What counts as malformed differs from JSON's syntax:
  - a line the decoder rejects stands for one `JSON.parse` rejects;
  - a record whose fields have the wrong types is counted as malformed, where JavaScript would load it with those types.
- `configureMemoryPath` and `MEMORY_FILE_PATH` (src/graph/manager.ts:13-34) are left out, because they are path arithmetic over Node's libraries.
  - The constructor takes the file's initial contents instead of its path.
- Debug logging to a fixed file (`debugLog`, including the whole body of `getConnectedRelations` except its `filter`) is left out; it has no effect on results.
- The clock is a parameter: `new Date().toISOString()` is passed in as `now`.
- Unicode is modelled only in part:
  - `toLowerCase` is the ASCII mapping;
  - `\s` is ECMAScript's fixed whitespace set;
  - `[^\w\d_.-]` is a character predicate on ASCII letters, digits, `_`, `.` and `-`.
- Loaded records lose their `type` tag: loadGraph pushes each parsed line unchanged (src/graph/manager.ts:63-64), so in the source every entity and relation that readGraph, searchNodes, openNodes, updateEntities and updateRelations return still carries `type: "entity"` or `type: "relation"`. `Entity` and `Relation` here have no such field; the tag is written and read only by the record codec.
- JavaScript numbers are modelled as unbounded integers.
  - An absent or falsy `version` is represented by 0.
  - NaN and fractional versions are not modelled.
- Versions in `updateEntities` and `updateRelations` are taken from the stored record. Extra fields a caller passes beyond the declared interfaces are not modelled.
  - `EntityUpdate` carries the optional `entityType` and `observations` an update may supply.
- Overlapping asynchronous calls are not modelled: each operation is one atomic step, so lost updates between concurrent calls are out of scope.
- The MCP transport (src/server/mcp-server.ts), the CLI (src/cli/main.ts) and the process harnesses are not part of this model.
- Search.SearchExactName: the fixture entities carry `createdAt = ""`, as given in the test, rather than the stamp `createEntities` would put on them; search never reads `createdAt`.
