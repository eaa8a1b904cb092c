/** The rows of the wordnet store, natural-key lookup, dirty marking of
    lexicons, and the editor handles. */
module Store {
  import opened Wrappers
  import opened Ids
  import opened Lexicons
  import opened Relations
  import opened Arguments

  datatype LexiconRow = LexiconRow(
    id: string, lexLabel: string, language: string, email: string, license: string,
    version: string, url: Option<string>, citation: Option<string>, logo: Option<string>,
    meta: Option<Metadata>, modified: bool)

  datatype SynsetRow = SynsetRow(id: string, lexicon: RowId, ili: Option<RowId>, meta: Option<Metadata>)

  datatype EntryRow = EntryRow(id: string, lexicon: RowId, pos: string)

  datatype SenseRow = SenseRow(id: string, lexicon: RowId, entry: RowId, synset: RowId)

  datatype FormRow = FormRow(lexicon: RowId, entry: RowId, form: string, normalized: Option<string>)

  datatype ProposedIliRow = ProposedIliRow(synset: RowId, definition: string, meta: Option<Metadata>)

  datatype BehaviourRow = BehaviourRow(id: string, lexicon: RowId, frame: string)

  /** The columns the editor re-resolves each kind of row by. */
  function LexiconKey(r: LexiconRow): (string, string) { (r.id, r.version) }

  function SynsetKey(r: SynsetRow): (string, RowId) { (r.id, r.lexicon) }

  function EntryKey(r: EntryRow): (string, RowId) { (r.id, r.lexicon) }

  function SenseKey(r: SenseRow): (string, RowId) { (r.id, r.lexicon) }

  function FormKey(r: FormRow): (RowId, string) { (r.entry, r.form) }

  /** The whole content of the store, for stating what an operation leaves alone. */
  datatype Tables = Tables(
    lexicons: map<RowId, LexiconRow>,
    synsets: map<RowId, SynsetRow>,
    entries: map<RowId, EntryRow>,
    senses: map<RowId, SenseRow>,
    forms: map<RowId, FormRow>,
    proposedIlis: map<RowId, ProposedIliRow>,
    behaviours: map<RowId, BehaviourRow>,
    synsetRelations: seq<Edge>,
    senseSynsetRelations: seq<Edge>,
    senseRelations: seq<Edge>,
    nextRowid: RowId)

  /** The rows whose natural-key columns equal `want`. */
  function Hits<K(==)>(keys: map<RowId, K>, want: K): set<RowId> {
    set k | k in keys && keys[k] == want
  }

  lemma SingleElement<T>(s: set<T>)
    requires |s| == 1
    ensures exists x :: s == {x}
  {
    var x :| x in s;
    assert |s - {x}| == 0;
    assert s == {x};
  }

  /** `get_row_id`: the row id when exactly one row matches every given
      column; nothing both when no row and when several rows match. */
  function LookupRowId<K(==)>(keys: map<RowId, K>, want: K): (r: Option<RowId>)
    ensures r.Some? <==> |Hits(keys, want)| == 1
    ensures r.Some? ==> r.value in keys && keys[r.value] == want
    ensures r.Some? ==> forall k :: k in keys && keys[k] == want ==> k == r.value
  {
    var hits := Hits(keys, want);
    if |hits| == 1 then
      SingleElement(hits);
      var k :| k in hits;
      assert hits == {k};
      assert forall j :: j in keys && keys[j] == want ==> j in hits;
      Some(k)
    else
      None
  }

  /** The natural key of every row of a table. */
  function KeysBy<V, K>(rows: map<RowId, V>, key: V -> K): map<RowId, K> {
    map k | k in rows :: key(rows[k])
  }

  /** Some row of the table has the key `want`. */
  ghost predicate HasKey<V, K>(rows: map<RowId, V>, key: V -> K, want: K) {
    exists j :: j in rows && key(rows[j]) == want
  }

  /** Re-resolving a row just inserted under its key: found exactly when no
      older row has that key. */
  lemma LookupAfterInsert<V, K>(rows: map<RowId, V>, k: RowId, row: V, key: V -> K)
    requires k !in rows
    ensures LookupRowId(KeysBy(rows[k := row], key), key(row))
         == if HasKey(rows, key, key(row)) then None else Some(k)
  {
    var keys := KeysBy(rows[k := row], key);
    var hits := Hits(keys, key(row));
    if HasKey(rows, key, key(row)) {
      var j :| j in rows && key(rows[j]) == key(row);
      assert {j, k} <= hits;
      assert |{j, k}| == 2;
    } else {
      assert hits == {k};
    }
  }

  /** The lexicons an editor marks: its own one, or a list of them. */
  datatype Scope = One(rowid: Option<RowId>) | Every(rowids: seq<RowId>)

  /** The row ids a list holds. */
  function Members(rows: seq<RowId>): set<RowId> {
    if rows == [] then {} else Members(rows[..|rows| - 1]) + {rows[|rows| - 1]}
  }

  lemma {:induction false} MembersSpec(rows: seq<RowId>)
    ensures forall x :: x in Members(rows) <==> x in rows
  {
    if rows != [] {
      MembersSpec(rows[..|rows| - 1]);
      assert rows == rows[..|rows| - 1] + [rows[|rows| - 1]];
    }
  }

  function Targets(scope: Scope): set<RowId> {
    match scope
    case One(r) => if r.Some? then {r.value} else {}
    case Every(rs) => Members(rs)
  }

  /** `UPDATE lexicons SET modified=1 WHERE rowid=?` for each target row. */
  function MarkModified(lexicons: map<RowId, LexiconRow>, rows: set<RowId>): (r: map<RowId, LexiconRow>)
    ensures r.Keys == lexicons.Keys
    ensures forall k :: k in rows && k in lexicons ==> r[k].modified
  {
    map k | k in lexicons :: if k in rows then lexicons[k].(modified := true) else lexicons[k]
  }

  /** Marking changes the flag of the target rows and nothing else. */
  lemma MarkModifiedOnlyFlags(lexicons: map<RowId, LexiconRow>, rows: set<RowId>)
    ensures var r := MarkModified(lexicons, rows);
      && r.Keys == lexicons.Keys
      && (forall k :: k in r ==> r[k].modified == (lexicons[k].modified || k in rows))
      && (forall k :: k in r ==> r[k].(modified := lexicons[k].modified) == lexicons[k])
  {
  }

  lemma MarkModifiedTwice(lexicons: map<RowId, LexiconRow>, a: set<RowId>, b: set<RowId>)
    ensures MarkModified(MarkModified(lexicons, a), b) == MarkModified(lexicons, a + b)
  {
  }

  lemma MarkModifiedAbsent(lexicons: map<RowId, LexiconRow>, rows: set<RowId>)
    requires forall k :: k in rows ==> k !in lexicons
    ensures MarkModified(lexicons, rows) == lexicons
  {
  }

  /** Marking one more row is a single flag update on the marked map. */
  lemma MarkOneMore(lexicons: map<RowId, LexiconRow>, rows: set<RowId>, r: RowId)
    ensures var m := MarkModified(lexicons, rows);
      MarkModified(lexicons, rows + {r}) == if r in m then m[r := m[r].(modified := true)] else m
  {
  }

  /** The loop of `set_modified` over a list of lexicon rows, one UPDATE
      per row. */
  method MarkEach(lexicons: map<RowId, LexiconRow>, rows: seq<RowId>) returns (marked: map<RowId, LexiconRow>)
    ensures marked == MarkModified(lexicons, Members(rows))
  {
    marked := lexicons;
    MarkModifiedAbsent(lexicons, {});
    for i := 0 to |rows|
      invariant marked == MarkModified(lexicons, Members(rows[..i]))
    {
      assert rows[..i + 1][..i] == rows[..i];
      MarkOneMore(lexicons, Members(rows[..i]), rows[i]);
      if rows[i] in marked {
        marked := marked[rows[i] := marked[rows[i]].(modified := true)];
      }
    }
    assert rows[..|rows|] == rows;
  }

  const DefaultSensePrefix := "w_unkown_"

  /** The prefix of the sense ids of a word. */
  function SensePrefix(word: string): string { "w_" + word + "_" }

  /** The sense id a fresh sense has (`w_unkown_0`) starts with the prefix
      of a word only when the word is "unkown". */
  lemma DefaultIdHasWordPrefixOnlyForDefault(word: string)
    ensures SensePrefix(word) <= DefaultSensePrefix + "0" <==> word == "unkown"
  {
    var p := SensePrefix(word);
    var d := DefaultSensePrefix + "0";
    if p <= d {
      assert p[|word| + 2] == '_';
      assert d[1] == '_' && d[8] == '_';
      assert forall i :: 0 <= i < |d| && d[i] == '_' ==> i == 1 || i == 8;
      assert |word| == 6;
      assert word == p[2..8] == d[2..8];
    }
  }

  /** The id `add_word` gives the sense it creates: the sense is first
      created as `w_unkown_0`, the only sense of its new entry, then renamed
      to the next id with the word's prefix within that entry. */
  function WordSenseId(word: string): string {
    SensePrefix(word) + (if word == "unkown" then "1" else "0")
  }

  /** Allocating with the word's prefix in an entry whose only sense is
      `w_unkown_0` yields `WordSenseId(word)`. */
  lemma WordSenseIdAllocated(word: string, m: Option<nat>)
    requires IsMaxSuffix({DefaultSensePrefix + "0"}, SensePrefix(word), m)
    ensures IdFromMax(SensePrefix(word), m) == WordSenseId(word)
  {
    DefaultIdHasWordPrefixOnlyForDefault(word);
    if word == "unkown" {
      var d := DefaultSensePrefix + "0";
      assert d[|DefaultSensePrefix|..] == Show(0) + "";
      CastOfShow(0, "");
      assert SuffixValue(d, DefaultSensePrefix) == 0;
      assert m == Some(0);
      assert Show(1) == "1";
    }
  }

  /** A synset editor: its lexicon and its synset row. */
  datatype SynsetEditor = SynsetEditor(lex: RowId, row: RowId)

  /** An entry editor: its lexicon and its entry row. */
  datatype EntryEditor = EntryEditor(lex: RowId, entry: RowId)

  /** A sense editor; `row` is absent when re-resolving the new sense failed. */
  datatype SenseEditor = SenseEditor(lex: RowId, entry: RowId, synset: RowId, row: Option<RowId>)

  /** A form editor; `row` is absent when re-resolving the new form failed. */
  datatype FormEditor = FormEditor(lex: RowId, entry: RowId, row: Option<RowId>)

  /** A synset named by a caller, already resolved to its lexicon and row. */
  datatype SynsetRef = SynsetRef(lexicon: RowId, row: RowId)

  /** A sense named by a caller, already resolved to its lexicon and row. */
  datatype SenseRef = SenseRef(lexicon: RowId, row: RowId)

  /** What a relation to a synset is set to: a synset, or a word for which
      a new synset is created. */
  datatype SynsetTarget = Existing(synset: SynsetRef) | Word(word: string)

  /** What a relation to a synset is deleted from: a synset, or every
      synset the lexicon library finds for a word. */
  datatype DeleteTarget = Only(synset: SynsetRef) | AllNamed(word: string, found: seq<SynsetRef>)

  datatype RelTable = SynsetToSynset | SenseToSynset | SenseToSense

  function EdgesOf(t: Tables, table: RelTable): seq<Edge> {
    match table
    case SynsetToSynset => t.synsetRelations
    case SenseToSynset => t.senseSynsetRelations
    case SenseToSense => t.senseRelations
  }

  function WithEdges(t: Tables, table: RelTable, edges: seq<Edge>): Tables {
    match table
    case SynsetToSynset => t.(synsetRelations := edges)
    case SenseToSynset => t.(senseSynsetRelations := edges)
    case SenseToSense => t.(senseRelations := edges)
  }

  /** Deleting the relations of several synsets to one target, one synset
      after the other. */
  function UnlinkAll(edges: seq<Edge>, found: seq<SynsetRef>, target: RowId, kind: int): seq<Edge> {
    if found == [] then edges
    else
      var last := found[|found| - 1];
      Unlink(UnlinkAll(edges, found[..|found| - 1], target, kind), last.lexicon, last.row, target, kind)
  }

  /** After a bulk deletion no row links a found synset to the target with
      that type. */
  lemma {:induction false} UnlinkAllRemoves(edges: seq<Edge>, found: seq<SynsetRef>, target: RowId, kind: int, i: nat, e: Edge)
    requires i < |found| && Matches(e, found[i].lexicon, found[i].row, target, kind)
    ensures multiset(UnlinkAll(edges, found, target, kind))[e] == 0
  {
    var init := found[..|found| - 1];
    var last := found[|found| - 1];
    var before := UnlinkAll(edges, init, target, kind);
    var after := Unlink(before, last.lexicon, last.row, target, kind);
    assert UnlinkAll(edges, found, target, kind) == after;
    if Matches(e, last.lexicon, last.row, target, kind) {
      assert multiset(after)[e] == 0;
    } else {
      assert i < |init| && init[i] == found[i];
      UnlinkAllRemoves(edges, init, target, kind, i, e);
      assert multiset(after)[e] == multiset(before)[e];
    }
  }

  /** Every row that matches none of the found synsets is kept, as often
      as it was stored. */
  lemma {:induction false} UnlinkAllKeeps(edges: seq<Edge>, found: seq<SynsetRef>, target: RowId, kind: int, e: Edge)
    requires forall i :: 0 <= i < |found| ==> !Matches(e, found[i].lexicon, found[i].row, target, kind)
    ensures multiset(UnlinkAll(edges, found, target, kind))[e] == multiset(edges)[e]
  {
    if found != [] {
      var init := found[..|found| - 1];
      forall i | 0 <= i < |init| ensures !Matches(e, init[i].lexicon, init[i].row, target, kind) {
        assert init[i] == found[i];
      }
      UnlinkAllKeeps(edges, init, target, kind, e);
    }
  }

  /** `_get_all_lexicon_row_ids` as written: each fetched row is a 1-tuple,
      so `r[0][0]` subscripts an integer and raises as soon as one lexicon
      is installed. */
  function AllLexiconRowIdsAsWritten(rows: seq<RowId>): (r: Result<seq<RowId>>)
    ensures r.Ok? <==> rows == []
  {
    if rows == [] then Ok([]) else Err(TypeError)
  }

  /** The deletion loop of `delete_relation_to_synset` over the synsets
      found for a word, one DELETE per synset. */
  method UnlinkEach(edges: seq<Edge>, found: seq<SynsetRef>, target: RowId, kind: int) returns (r: seq<Edge>)
    ensures r == UnlinkAll(edges, found, target, kind)
  {
    r := edges;
    for i := 0 to |found|
      invariant r == UnlinkAll(edges, found[..i], target, kind)
    {
      assert found[..i + 1][..i] == found[..i];
      r := Unlink(r, found[i].lexicon, found[i].row, target, kind);
    }
    assert found[..|found|] == found;
  }

  /** The relation row `_set_relation_to_sense` inserts, as written: it is
      filed under the lexicon of the sense's synset, while
      `_delete_relaton_to_sense` deletes under the sense's own lexicon. */
  function SenseSynsetEdgeAsWritten(sense: SenseRef, synsetLexicon: RowId, synset: RowId, kind: int): (e: Edge)
    ensures e.source == sense.row && e.target == synset && e.kind == kind
  {
    Edge(synsetLexicon, sense.row, synset, kind)
  }

  /** A sense whose synset belongs to another lexicon: the relation set
      from it survives the deletion meant to undo it. */
  lemma SenseSynsetDeleteMissesAsWritten()
    ensures var sense := SenseRef(1, 5);
      var e := SenseSynsetEdgeAsWritten(sense, 2, 7, Code(Hypernym));
      Unlink(Link([], e), sense.lexicon, sense.row, 7, Code(Hypernym)) == [e]
  {
  }

  /** The relation row as evidently intended: filed under the sense's own
      lexicon, the key its deletion uses. */
  function SenseSynsetEdge(sense: SenseRef, synset: RowId, kind: int): (e: Edge)
    ensures Matches(e, sense.lexicon, sense.row, synset, kind)
  {
    Edge(sense.lexicon, sense.row, synset, kind)
  }

  /** Setting then deleting a sense-to-synset relation with the corrected
      row restores the table, whatever the sense's synset. */
  lemma SenseSynsetSetThenDelete(edges: seq<Edge>, sense: SenseRef, synset: RowId, kind: int)
    ensures Unlink(Link(edges, SenseSynsetEdge(sense, synset, kind)), sense.lexicon, sense.row, synset, kind)
         == Unlink(edges, sense.lexicon, sense.row, synset, kind)
    ensures CountMatching(Link(edges, SenseSynsetEdge(sense, synset, kind)), sense.lexicon, sense.row, synset, kind)
         == CountMatching(edges, sense.lexicon, sense.row, synset, kind) + 1
  {
    UnlinkAfterLink(edges, SenseSynsetEdge(sense, synset, kind));
    LinkAddsOne(edges, SenseSynsetEdge(sense, synset, kind));
  }

  /** The proposed-ILI rows of a synset. */
  function IliRowsOf(rows: map<RowId, ProposedIliRow>, synset: RowId): set<RowId> {
    set k | k in rows && rows[k].synset == synset
  }

  /** Python truthiness of a metadata argument: absent and `{}` are false. */
  predicate MetaGiven(meta: Option<Metadata>) {
    meta.Some? && meta.value != map[]
  }

  /** The UPDATE branch of `set_proposed_ili`: every row of the synset takes
      the definition, and the metadata too when one is given. */
  function UpdateIli(rows: map<RowId, ProposedIliRow>, synset: RowId, definition: string, meta: Option<Metadata>)
    : (r: map<RowId, ProposedIliRow>)
    ensures r.Keys == rows.Keys
    ensures IliRowsOf(r, synset) == IliRowsOf(rows, synset)
    ensures forall k :: k in IliRowsOf(r, synset) ==>
              r[k].definition == definition && r[k].meta == (if MetaGiven(meta) then meta else rows[k].meta)
    ensures forall k :: k in r && k !in IliRowsOf(rows, synset) ==> r[k] == rows[k]
  {
    map k | k in rows :: if rows[k].synset == synset
                         then rows[k].(definition := definition, meta := if MetaGiven(meta) then meta else rows[k].meta)
                         else rows[k]
  }

  /** The INSERT branch, taken only when the synset has no row yet, leaves
      it with exactly the new one. */
  lemma InsertIliOnlyRow(rows: map<RowId, ProposedIliRow>, k: RowId, row: ProposedIliRow)
    requires k !in rows && IliRowsOf(rows, row.synset) == {}
    ensures IliRowsOf(rows[k := row], row.synset) == {k}
  {
    assert k in IliRowsOf(rows[k := row], row.synset);
  }

  /** `delete_proposed_ili`: every row of the synset goes, every other
      row stays. */
  function DropIli(rows: map<RowId, ProposedIliRow>, synset: RowId): (r: map<RowId, ProposedIliRow>)
    ensures IliRowsOf(r, synset) == {}
    ensures r.Keys == rows.Keys - IliRowsOf(rows, synset)
    ensures forall k :: k in r ==> r[k] == rows[k]
  {
    map k | k in rows && rows[k].synset != synset :: rows[k]
  }

  /** `delete_syntactic_behaviour`'s DELETE: by row id, or by id, lexicon
      and frame. */
  function DropBehaviours(rows: map<RowId, BehaviourRow>, key: BehaviourKey, lexicon: RowId): (r: map<RowId, BehaviourRow>)
    ensures forall k :: k in r <==> k in rows && !BehaviourMatches(k, rows[k], key, lexicon)
    ensures forall k :: k in r ==> r[k] == rows[k]
  {
    map k | k in rows && !BehaviourMatches(k, rows[k], key, lexicon) :: rows[k]
  }

  /** Repeating the deletion removes nothing more. */
  lemma DropBehavioursTwice(rows: map<RowId, BehaviourRow>, key: BehaviourKey, lexicon: RowId)
    ensures DropBehaviours(DropBehaviours(rows, key, lexicon), key, lexicon) == DropBehaviours(rows, key, lexicon)
  {
  }

  /** By row id, at most the named row goes. */
  lemma DropByRowIdRemovesAtMostOne(rows: map<RowId, BehaviourRow>, rowid: int, lexicon: RowId)
    ensures forall k :: k in rows && k !in DropBehaviours(rows, ByRowId(rowid), lexicon) ==> k == rowid
    ensures |DropBehaviours(rows, ByRowId(rowid), lexicon)| >= |rows| - 1
  {
    var d := DropBehaviours(rows, ByRowId(rowid), lexicon);
    if rowid >= 0 && rowid as RowId in rows {
      assert d.Keys == rows.Keys - {rowid as RowId};
    } else {
      assert d.Keys == rows.Keys;
    }
  }

  /** By id and frame, only rows of the editor's lexicon can go. */
  lemma DropByIdAndFrameKeepsOtherLexicons(rows: map<RowId, BehaviourRow>, id: string, frame: string, lexicon: RowId)
    ensures forall k :: k in rows && rows[k].lexicon != lexicon ==>
      k in DropBehaviours(rows, ByIdAndFrame(id, frame), lexicon)
  {
  }

  predicate BehaviourMatches(k: RowId, row: BehaviourRow, key: BehaviourKey, lexicon: RowId) {
    match key
    case ByRowId(r) => k == r
    case ByIdAndFrame(id, frame) => row.id == id && row.lexicon == lexicon && row.frame == frame
  }

  /** A lexicon as the lexicon library lists it. */
  datatype LibraryLexicon = LibraryLexicon(id: string, version: string, lexLabel: string)

  /** The "id:version" specifier the library takes. */
  function Spec(lex: LibraryLexicon): string {
    lex.id + ":" + lex.version
  }
}
