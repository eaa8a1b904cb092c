# wn-editor core in Dafny

wn-editor adds editing to a read-only wordnet library. Each editor
(`LexiconEditor`, `SynsetEditor`, `SenseEditor`, `EntryEditor`,
`FormEditor`, `IlIEditor`) turns edits into SQL statements against the
library's relational store. This project models that store as one
`Database` class. Each table is a field: a `map` from row id to row for
lexicons, synsets, entries, senses, forms, proposed ILIs and syntactic
behaviours, and a `seq` of edges for each of the three relation tables.
Each editor operation that changes the store is a method with
`modifies this`. Its postcondition gives the whole new store as an update
of the old one (`State() == old(State()).(...)`) and keeps the invariant
`Valid()`.

The modules follow the parts of `wn_editor/editor.py`:

- `Wrappers`: row ids, `Option`, `Result`, and the Python exceptions the editors let escape.
- `Ids`: the SQLite cast of an id suffix, decimal printing, and the three id allocators (`max(suffix) + 1`, or 0 when no id in scope has the prefix).
- `Lexicons`: the metadata note with the artificial marker, the reset policy, and the overview line.
- `Relations`: the 28 relation types and their codes, and edge insertion and deletion.
- `Arguments`: the argument checks of `SenseEditor.__init__` and `delete_syntactic_behaviour`.
- `Store`: the row types, natural-key lookup (`get_row_id`), dirty marking, editor handles, and the pure updates used by proposed ILIs, behaviours and bulk relation deletion.
- `Editor`: the `Database` class and the editor operations.

Editors are plain values (`SynsetEditor(lex, row)` and so on) that are
passed to the `Database` methods. An operation that raises in Python
returns `Err(e)`. Every marking operation runs `set_modified` first, so
the dirty flag is set even when the rest of the body fails. The
postconditions spell that state out.

## Model

| member | source | states |
|---|---|---|
| Store.LookupRowId | wn_editor/editor.py:27-43 | a row id comes back exactly when one row has the key; no match and several matches both give nothing |
| Store.LookupAfterInsert | wn_editor/editor.py:27-43 | re-resolving a row just inserted finds it exactly when no older row has its key |
| Ids.LeadingDigits | wn_editor/editor.py:191-235 | the cast reads the longest digit prefix of the suffix and stops at the first non-digit |
| Ids.CastUnsigned | wn_editor/editor.py:194 | a suffix made only of digits casts to its decimal value; a suffix that does not start with a digit casts to 0 |
| Ids.Show | wn_editor/editor.py:191-235 | `str(n)` is a non-empty string of digits |
| Ids.CastOfShow | wn_editor/editor.py:191-235 | a printed number followed by any non-digit text is read back as that number |
| Ids.MaxSuffix | wn_editor/editor.py:191-235 | the SQL aggregate is NULL when no id has the prefix, otherwise the largest suffix value |
| Ids.IdFromMax | wn_editor/editor.py:198-205 | the Python half of the sense and synset allocators: the id starts with the prefix, and its suffix reads back through the cast as max + 1, or 0 on NULL |
| Ids.IdFromMaxIsPrefixedNumber | wn_editor/editor.py:198-205 | the new id is the prefix followed by the next number (0 on NULL) |
| Ids.AllocatedIdIsFresh | wn_editor/editor.py:191-205 | an allocated id has the prefix, reads back as max + 1, exceeds every suffix in scope and is new to the scope, also with the synset tail "-u" |
| Ids.AllocationAdvances | wn_editor/editor.py:224-235 | once stored, the allocated number becomes the scope's maximum, so the next allocation is one higher |
| Ids.AllocatedIdSpec | wn_editor/editor.py:191-235 | any id allocation hands out has the prefix, is new, and exceeds every suffix in scope |
| Ids.AllocationExample | wn_editor/editor.py:224-235 | with suffixes 0, 1 and 4 in scope the next synset id is "x-5-u" |
| Ids.AllocationExampleEmpty | wn_editor/editor.py:224-235 | a scope with no synset id gives a NULL maximum and the first id "x-0-u" |
| Ids.EntryIdAsWritten | wn_editor/editor.py:208-221 | the entry allocator as written fails exactly when the aggregate is NULL |
| Ids.EntryIdAsWrittenFailsOnEmptyTable | wn_editor/editor.py:208-221 | with no entries the allocator as written raises TypeError |
| Ids.EntryIdCorrected | wn_editor/editor.py:208-221 | the corrected allocator agrees with the written one wherever that one succeeds, and always yields a new "w" id above every other one |
| Store.DefaultIdHasWordPrefixOnlyForDefault | wn_editor/editor.py:191-205 | `w_unkown_0` carries the prefix `w_<word>_` only for the default word "unkown" |
| Store.WordSenseIdAllocated | wn_editor/editor.py:191-205 | in an entry whose only sense id is `w_unkown_0` the word's sense id is `w_<word>_0`, or `w_unkown_1` for "unkown" |
| Lexicons.IsArtificial | wn_editor/editor.py:143-152 | a lexicon is artificial only when its metadata exists and has a note |
| Lexicons.MarkArtificial | wn_editor/editor.py:462-468 | the marked metadata has exactly the old keys plus "note", and every other key keeps its value |
| Lexicons.MarkArtificialSpec | wn_editor/editor.py:457-486 | marking keeps every other metadata key, appends " _.artificial" to the note (an absent note counts as empty) and makes the lexicon artificial |
| Lexicons.RemovedOnReset | wn_editor/editor.py:169 | an unmodified lexicon is never removed, and a modified one that is not artificial always is |
| Lexicons.RedownloadedOnReset | wn_editor/editor.py:169-172 | a lexicon is downloaded again exactly when it is modified and not artificial, whatever `delete_artificial` says |
| Lexicons.ResetPlanAppend | wn_editor/editor.py:165-172 | the reset handles lexicons one after another |
| Lexicons.ResetPlanCalls | wn_editor/editor.py:165-172 | a lexicon is removed iff it is modified and either not artificial or artificial deletion is on; it is downloaded again iff it is removed and not artificial; no other lexicon is touched |
| Lexicons.DownloadFollowsRemove | wn_editor/editor.py:169-172 | every download comes right after the removal of the same lexicon |
| Lexicons.OverviewLine | wn_editor/editor.py:184-188 | the line starts with "id:version", a tab and the label, and always carries the two marker fields after it |
| Lexicons.ReadMarkersOfOverviewLine | wn_editor/editor.py:184-188 | both flags can be read back from an overview line, whatever the label |
| Relations.CodeRoundTrip | wn_editor/editor.py:321-395 | each relation type is stored as a code in 1..28 that names the type back |
| Relations.CodeInjective | wn_editor/editor.py:321-395 | distinct types are stored under distinct codes |
| Relations.Unlink | wn_editor/editor.py:321-341 | the deletion removes every row that matches the key and keeps every other row as often as it was stored |
| Relations.Link | wn_editor/editor.py:373-395 | the INSERT adds exactly the new row to the table, as a multiset, and removes none |
| Relations.LinkAddsOne | wn_editor/editor.py:373-395 | an insert adds exactly one matching row, even when an equal row already exists |
| Relations.UnlinkLeavesNone | wn_editor/editor.py:321-341 | no row matching the key survives a deletion |
| Relations.UnlinkAfterLink | wn_editor/editor.py:321-395 | deleting after an insert with the same key gives the same table as deleting without the insert |
| Relations.UnlinkOtherKeyKeepsRow | wn_editor/editor.py:321-395 | a deletion with another type or endpoint leaves an inserted row in place |
| Store.UnlinkAllRemoves | wn_editor/editor.py:924-928 | the word-based deletion leaves no row from any found synset to this one with the type |
| Store.UnlinkAllKeeps | wn_editor/editor.py:924-928 | the word-based deletion keeps every row that matches none of the found synsets |
| Store.UnlinkEach | wn_editor/editor.py:924-928 | the deletion loop over the found synsets computes the bulk deletion |
| Store.SenseSynsetEdgeAsWritten | wn_editor/editor.py:344-370 | the inserted sense-to-synset row runs from the sense to the synset with the type |
| Store.SenseSynsetDeleteMissesAsWritten | wn_editor/editor.py:344-370 | a sense whose synset is in another lexicon keeps its relation after the matching deletion |
| Store.SenseSynsetEdge | wn_editor/editor.py:705-723 | the corrected row matches the key the deletion uses |
| Store.SenseSynsetSetThenDelete | wn_editor/editor.py:344-370 | with the corrected row, setting then deleting a sense-to-synset relation restores the table, and setting adds exactly one matching row |
| Store.MembersSpec | wn_editor/editor.py:410-417 | the rows a list names are exactly its members |
| Store.MarkModified | wn_editor/editor.py:131-135 | `UPDATE lexicons SET modified=1` keeps the set of lexicon rows and sets the flag of every target row that exists |
| Store.MarkModifiedOnlyFlags | wn_editor/editor.py:410-417 | marking sets the flag of every target lexicon that exists and changes nothing else in any lexicon row |
| Store.MarkModifiedTwice | wn_editor/editor.py:18-24 | marking twice is marking the union, so the repeated marking of nested operations is idempotent |
| Store.MarkModifiedAbsent | wn_editor/editor.py:410-417 | marking a row that does not exist changes nothing |
| Store.MarkOneMore | wn_editor/editor.py:413-414 | marking one more row is one flag update |
| Store.MarkEach | wn_editor/editor.py:410-417 | the UPDATE loop over a list of lexicon rows marks exactly the rows in the list |
| Store.AllLexiconRowIdsAsWritten | wn_editor/editor.py:266-272 | `_get_all_lexicon_row_ids` as written succeeds only when no lexicon is installed |
| Store.UpdateIli | wn_editor/editor.py:1078-1098 | the UPDATE gives every row of the synset the definition, and the metadata only when some is given; no row is added or removed and other rows are unchanged |
| Store.InsertIliOnlyRow | wn_editor/editor.py:1099-1105 | the INSERT branch, taken only when the synset has no row, leaves it with exactly the new one |
| Store.DropIli | wn_editor/editor.py:1108-1119 | deletion leaves the synset without rows and keeps every other row |
| Store.DropBehavioursTwice | wn_editor/editor.py:580-592 | repeating a behaviour deletion removes nothing more |
| Store.DropByRowIdRemovesAtMostOne | wn_editor/editor.py:581-587 | a deletion by row id removes at most the named row |
| Store.DropByIdAndFrameKeepsOtherLexicons | wn_editor/editor.py:588-593 | a deletion by id and frame never removes a row of another lexicon |
| Arguments.SenseEditorMode | wn_editor/editor.py:1170-1199 | a sense editor is built from a sense alone or from all three row ids and nothing else; anything else raises AttributeError |
| Arguments.BehaviourDeletion | wn_editor/editor.py:573-579 | the deletion takes a row id alone, or an id and a frame without a row id; anything else raises AttributeError |
| Editor.Database.Artificial | wn_editor/editor.py:143-152 | `get_artificial` of a row id is false when the row is missing or has no metadata |
| Editor.Database.Modified | wn_editor/editor.py:165-168 | the modified flag of a row id is false when `get_row_id` found nothing or the row is missing |
| Editor.Database.SetModified | wn_editor/editor.py:410-417 | the flag of each target lexicon is set, for one row or a list; the rest of the store is unchanged |
| Editor.Database.AllLexiconRowIds | wn_editor/editor.py:266-272 | the corrected query returns each installed lexicon row id exactly once; the query as written (`AllLexiconRowIdsAsWritten`) fails on that list exactly when some lexicon is installed |
| Editor.Database.IliSetModified | wn_editor/editor.py:620-631 | an ILI editor's marking sets the flag of every lexicon |
| Editor.Database.CreateLexicon | wn_editor/editor.py:441-486 | the lexicon is inserted unmodified with the marked metadata, is artificial, and is found again exactly when no older lexicon has its id and version |
| Editor.Database.SynsetCreate | wn_editor/editor.py:778-809 | a missing lexicon raises TypeError before any write; otherwise the lexicon is marked and a synset with a newly allocated "-u" id is inserted and found again |
| Editor.Database.EntryCreate | wn_editor/editor.py:1472-1490 | the lexicon is marked; a missing lexicon makes the insert fail; otherwise an entry with a newly allocated "w" id and part of speech "u" is inserted and found again (with the corrected entry allocator, see "## Left out") |
| Editor.Database.SenseCreate | wn_editor/editor.py:1170-1216 | bad arguments raise AttributeError with nothing written; a missing lexicon, entry or synset fails after marking; otherwise a sense with a newly allocated `w_unkown_<n>` id is inserted and found again exactly when no other sense of the lexicon has that id |
| Editor.Database.SenseSetId | wn_editor/editor.py:1218-1229 | the lexicon is marked and only the editor's sense row, if any, changes its id |
| Editor.Database.FormCreate | wn_editor/editor.py:1600-1637 | the entry's lexicon is marked, the placeholder form "_" is inserted, and it is found again exactly when the entry had no placeholder; a missing entry or lexicon fails with nothing written |
| Editor.Database.FormSetForm | wn_editor/editor.py:1639-1649 | the lexicon is marked and only the editor's form row, if any, changes its text |
| Editor.Database.FormSetNormalizedForm | wn_editor/editor.py:1651-1661 | the lexicon is marked and only the editor's form row, if any, changes its normalized text |
| Editor.Database.FillForm | wn_editor/editor.py:1517-1519 | the form takes the text, and the normalized text only when one is given and non-empty |
| Editor.Database.EntryAddForm | wn_editor/editor.py:1510-1520 | one form is added to the entry with the word and normalized text, or stays the placeholder when it cannot be found again |
| Editor.Database.RenameFirstSense | wn_editor/editor.py:824 | the new sense is renamed to the word's first sense id in its entry |
| Editor.Database.CreateFirstSense | wn_editor/editor.py:820-823 | the first sense of an entry with no senses gets `w_unkown_0` and becomes the entry's only sense id; it is re-resolved exactly when no other sense of the lexicon had that id |
| Editor.Database.AddWordSense | wn_editor/editor.py:820-824 | the sense joins the new entry to the synset under `w_<word>_0`, or keeps `w_unkown_0` when another sense of the lexicon already had that id; a missing synset fails |
| Editor.Database.AddWordRest | wn_editor/editor.py:820-825 | after the entry, exactly one sense and one form holding the word are added |
| Editor.Database.AddWord | wn_editor/editor.py:811-826 | the lexicon is marked and exactly one entry (new "w" id), one sense and one form holding the word are added; a missing lexicon writes nothing, a missing synset leaves the new entry behind (with the corrected entry allocator, see "## Left out") |
| Editor.Database.LinkEdge | wn_editor/editor.py:373-395 | an insert appends one row to one relation table and changes nothing else |
| Editor.Database.UnlinkEdges | wn_editor/editor.py:321-341 | a deletion changes one relation table only, as `Unlink` does |
| Editor.Database.NewSynsetWithWord | wn_editor/editor.py:907-908 | a word target becomes a new synset of the lexicon with one entry, sense and form holding the word (with the corrected entry allocator, see "## Left out") |
| Editor.Database.LinkToSynset | wn_editor/editor.py:909 | when the editor's synset can be read back, one row from the other synset to this one is added; otherwise IndexError and nothing changes |
| Editor.Database.SynsetSetRelation | wn_editor/editor.py:897-910 | after marking, exactly one row (lexicon of the other synset, the other synset, this synset, the type code) is added; a word first creates one new synset holding it (with the corrected entry allocator, see "## Left out") |
| Editor.Database.SynsetDeleteRelation | wn_editor/editor.py:912-931 | after marking, the rows from the given synset, or from every synset found for the word, to this one with the type are deleted; an empty list never raises |
| Editor.Database.SynsetSetSenseRelation | wn_editor/editor.py:875-885 | after marking, exactly one row from the sense to this synset is added; it is filed under the sense's own lexicon, the corrected column (see "## Findings" and "## Left out") |
| Editor.Database.SynsetDeleteSenseRelation | wn_editor/editor.py:887-895 | after marking, the rows from the sense to this synset with the type are deleted |
| Editor.Database.SenseSetSynsetRelation | wn_editor/editor.py:1257-1266 | after marking, a missing sense raises TypeError; otherwise exactly one row from the sense to the synset is added; it is filed under the sense's own lexicon, the corrected column (see "## Findings" and "## Left out") |
| Editor.Database.SenseDeleteSynsetRelation | wn_editor/editor.py:1268-1277 | after marking, the rows from the sense to the synset with the type are deleted |
| Editor.Database.SenseSetSenseRelation | wn_editor/editor.py:1279-1288 | after marking, exactly one row from this sense to the other is added under this sense's lexicon |
| Editor.Database.SenseDeleteSenseRelation | wn_editor/editor.py:1290-1299 | after marking, the rows from this sense to the other with the type are deleted |
| Editor.Database.SynsetSetProposedIli | wn_editor/editor.py:1066-1106 | existing rows of the synset are updated in place; otherwise one row is inserted; the synset never gets a second row |
| Editor.Database.SynsetDeleteProposedIli | wn_editor/editor.py:1108-1119 | after marking, the synset has no proposed-ILI row left and all other rows stay |
| Editor.Database.LexiconDeleteBehaviour | wn_editor/editor.py:564-592 | the argument check decides; on success exactly the matching behaviour rows go, and no lexicon is marked |
| Editor.Database.LexiconRowOf | wn_editor/editor.py:165-166 | a listed lexicon's row, when found, has its id and version |
| Editor.Database.FactsList | wn_editor/editor.py:165-168 | one set of facts per listed lexicon, the i-th read for the i-th lexicon |
| Editor.Database.FactsListAppend | wn_editor/editor.py:165-168 | the facts are read lexicon after lexicon |
| Editor.Database.ResetAll | wn_editor/editor.py:155-172 | the loop makes exactly the removal and download calls of the reset policy, in the library's order |
| Editor.Database.Overview | wn_editor/editor.py:175-188 | one line per listed lexicon, in order, with its flags read from the store |

## Left out

- The `_dec`/`_fix` signature machinery behind `_modifies_db`. Only its effect is modelled: `set_modified` runs before the body.
- Connections, cursors, commits and transactions. Each statement is applied to the tables at once.
- `print` and logger output. `get_wordnet_overview` returns its lines rather than printing them.
- The lexicon library. `wn.lexicons()` is a parameter listing `LibraryLexicon` values. `wn.remove` and `wn.download` are returned as `LibraryCall` values. `wn.synsets(word)` is the `found` list of `DeleteTarget.AllNamed`. Library objects (`wn.Synset`, `wn.Sense`) arrive already resolved to their lexicon and row (`SynsetRef`, `SenseRef`).
- The `as_*` read-backs. They are modelled only as the check that the row can be read back: `SynsetResolves` (IndexError) and `SenseOf` (TypeError).
- Row ids come from one global counter (`nextRowid`) rather than one per table. Deleted rows never give their id back.
- Foreign keys are modelled for inserts only. An entry, sense, form or proposed ILI that names a missing lexicon, entry or synset raises IntegrityError. Relation inserts are modelled as always succeeding. Deletes do not cascade.
- `LIKE` is a plain prefix test, and `replace()` removes the prefix once. Case-insensitivity, the `_` wildcard inside `w_<word>_`, and repeated occurrences of the prefix are not modelled.
- `get_row_id` keys are modelled per table through the columns the editor uses (`LexiconKey`, `SynsetKey`, `EntryKey`, `SenseKey`, `FormKey`), not as arbitrary column dictionaries.
- Editor.Database.IliSetModified: uses the corrected lexicon list (`AllLexiconRowIds`). In the code, `IlIEditor.__init__` calls `_get_all_lexicon_row_ids` (editor.py:620-623), which raises TypeError at editor.py:272 whenever a lexicon is installed, so the editor is never built and nothing is marked.
- Editor.Database.SynsetSetRelation, Editor.Database.SynsetDeleteRelation, Editor.Database.LinkToSynset, Editor.Database.SynsetSetSenseRelation, Editor.Database.SynsetDeleteSenseRelation, Editor.Database.SenseSetSynsetRelation, Editor.Database.SenseDeleteSynsetRelation, Editor.Database.SenseSetSenseRelation, Editor.Database.SenseDeleteSenseRelation: relation endpoints arrive as resolved row ids. The code looks each endpoint, and the editor's own read-back, up again by id: senses by id and lexicon (editor.py:357-360, 1184-1193), synsets by id alone taking the first row across lexicons (312-318), lexicons by id alone taking the first version (285-296), and `as_sense` through `wn.sense` by id (1255). Duplicate ids, such as two senses `w_dog_0` after `add_word("dog")` on two synsets of one lexicon, or two installed versions of one lexicon, make that lookup fail (TypeError at 1191, or a NULL source row id) or pick another row. The model does not capture this.
- `IlIEditor` construction, `_create` and its setters. `_get_valid_ili_id` is defective (it concatenates "i" with an int and never adds one). Only the ILI editor's list-scoped marking is modelled (`IliSetModified`).
- The editor methods outside the create, add-word, relation and proposed-ILI paths. This covers deletes of whole rows, `set_ili`, `delete_ili`, `set_pos`, `_set_id`, definitions, examples, counts, adjpositions, pronunciations, tags, `delete_word`, the hypernym shortcuts and `add_syntactic_behaviour`. `delete_adjposition` and `delete_pronunciation` fail as written.
- `EntryEditor(m_id, exists=True)` only reads the lexicon of the entry. It appears as `EntryLexicon`, not as a constructor.
- `FormEditor(wn.Form)` reads the lexicon column of the form row itself (editor.py:1586-1590, 1600-1603). This constructor is not modelled.
- `SynsetEditor(lex, row)` always holds a row id. A source editor whose `get_row_id` found nothing, and so holds `None`, is not represented.
- `create_new_lexicon` rewrites the caller's metadata dictionary in place (editor.py:462-468). The model returns the marked metadata as a new value, so that aliasing is not captured.
- Ids.CastUnsigned: the cast is abstracted to the value of the leading decimal digits. SQLite's numeric conversion also accepts leading spaces, a sign, a decimal point and an exponent, and those are not modelled.
- Ids.CastUnsigned, Ids.AllocatedIdIsFresh, Ids.AllocationAdvances, Ids.AllocatedIdSpec: suffix values are unbounded integers. In SQLite a digit-only suffix above 2^63-1 becomes a REAL, which Python then prints as `1e+20` and the like (editor.py:202, 233). Above that width the code can hand out the same id again, so freshness and advancing are proved only for the unbounded reading.
- Editor.Database.EntryCreate, Editor.Database.AddWord, Editor.Database.NewSynsetWithWord, Editor.Database.SynsetSetRelation: these use the corrected entry allocator (`Ids.EntryId`, first id "w0"). In a store where no entry id starts with "w", the code raises TypeError at editor.py:218-219 after the lexicon has been marked. The first `add_word` into such a store therefore fails in the code, and the word shortcut of `set_relation_to_synset` leaves the new bare synset behind. The allocator as written is `Ids.EntryIdAsWritten`.
- Editor.Database.SynsetSetSenseRelation, Editor.Database.SenseSetSynsetRelation: the new row is filed under the sense's own lexicon (`Store.SenseSynsetEdge`), so that the matching delete finds it. The code files it under the lexicon of the sense's synset (editor.py:362). The two differ only for a sense whose synset lies in another lexicon, and the code as written is `Store.SenseSynsetEdgeAsWritten`.
- Metadata is a map of text values. JSON encoding is not modelled.
- `get_modified` belongs to the lexicon library. It is modelled as reading the modified column of the lexicon row (`Modified`).
- Editor.Database.ResetAll, Editor.Database.Overview: the lexicon flags are read through `get_row_id`. A lexicon that is listed but not found reads as unmodified and not artificial.
- `get_row_id` returns nothing unless exactly one row matches (editor.py:27-43). It never picks the first of several matches (`LookupRowId`).
- The word shortcut of `set_relation_to_synset` adds the row from the new synset to the editor's synset (editor.py:907-909), not the other way round.

## Findings

| source | as written | input that shows it | evidently intended | confidence | as-written member | corrected member |
|---|---|---|---|---|---|---|
| wn_editor/editor.py:208-221 | when no entry id starts with "w", the aggregate row is `(None,)`, which is truthy, so the code computes `None + 1` | a store with no entries: the first `EntryEditor(lex, exists=False)` raises TypeError | return "w0" for the first entry, as the sense and synset allocators do | high, not executed | Ids.EntryIdAsWrittenFailsOnEmptyTable | Ids.EntryIdCorrected |
| wn_editor/editor.py:266-272 | each fetched row is a 1-tuple, and `r[0][0]` subscripts its integer | any store with one lexicon: the ILI editor's lexicon list raises TypeError | the row id of every lexicon | high, not executed | Store.AllLexiconRowIdsAsWritten | Editor.Database.AllLexiconRowIds |
| wn_editor/editor.py:344-370 | `_set_relation_to_sense` files the row under the lexicon of the sense's synset, while `_delete_relaton_to_sense` (705-723) deletes under the sense's own lexicon | a sense of lexicon 1 whose synset is in lexicon 2: set then delete leaves the row | file and delete under the same lexicon, the sense's own | medium, not executed | Store.SenseSynsetDeleteMissesAsWritten | Store.SenseSynsetSetThenDelete |
