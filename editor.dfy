/** The editors of wn-editor as operations on one in-memory wordnet store.
    Each `@_modifies_db` method marks its lexicon modified before it does
    anything else, so the mark survives a body that then fails. */
module Editor {
  import opened Wrappers
  import opened Ids
  import opened Lexicons
  import opened Relations
  import opened Arguments
  import opened Store

  class Database {
    var lexicons: map<RowId, LexiconRow>
    var synsets: map<RowId, SynsetRow>
    var entries: map<RowId, EntryRow>
    var senses: map<RowId, SenseRow>
    var forms: map<RowId, FormRow>
    var proposedIlis: map<RowId, ProposedIliRow>
    var behaviours: map<RowId, BehaviourRow>
    var synsetRelations: seq<Edge>
    var senseSynsetRelations: seq<Edge>
    var senseRelations: seq<Edge>
    /** The row id the next insert receives. */
    var nextRowid: RowId

    /** Row ids are positive and below the next one handed out, and no
        sense or form refers to an entry that has not been created yet. */
    ghost predicate Valid()
      reads this
    {
      && nextRowid > 0
      && (forall k :: k in lexicons ==> 0 < k < nextRowid)
      && (forall k :: k in synsets ==> 0 < k < nextRowid)
      && (forall k :: k in entries ==> 0 < k < nextRowid)
      && (forall k :: k in senses ==> 0 < k < nextRowid && senses[k].entry < nextRowid)
      && (forall k :: k in forms ==> 0 < k < nextRowid && forms[k].entry < nextRowid)
      && (forall k :: k in proposedIlis ==> 0 < k < nextRowid)
      && (forall k :: k in behaviours ==> 0 < k < nextRowid)
    }

    function State(): Tables
      reads this
    {
      Tables(lexicons, synsets, entries, senses, forms, proposedIlis, behaviours,
             synsetRelations, senseSynsetRelations, senseRelations, nextRowid)
    }

    constructor ()
      ensures Valid()
      ensures State() == Tables(map[], map[], map[], map[], map[], map[], map[], [], [], [], 1)
    {
      lexicons, synsets, entries, senses, forms := map[], map[], map[], map[], map[];
      proposedIlis, behaviours := map[], map[];
      synsetRelations, senseSynsetRelations, senseRelations := [], [], [];
      nextRowid := 1;
    }

    /** The allocation scopes: synset ids of a lexicon, all entry ids, and
        sense ids of an entry. */
    function SynsetIdsOf(lex: RowId): set<string>
      reads this
    {
      set k | k in synsets && synsets[k].lexicon == lex :: synsets[k].id
    }

    function EntryIds(): set<string>
      reads this
    {
      set k | k in entries :: entries[k].id
    }

    function SenseIdsOf(entry: RowId): set<string>
      reads this
    {
      set k | k in senses && senses[k].entry == entry :: senses[k].id
    }

    /** `_get_lex_name_from_lex_id`. */
    function LexiconName(lex: RowId): (r: Option<string>)
      reads this
      ensures r.Some? <==> lex in lexicons
      ensures r.Some? ==> r.value == lexicons[lex].id
    {
      if lex in lexicons then Some(lexicons[lex].id) else None
    }

    /** `_get_lex_id_from_entry`. */
    function EntryLexicon(entry: RowId): (r: Option<RowId>)
      reads this
      ensures r.Some? <==> entry in entries
      ensures r.Some? ==> r.value == entries[entry].lexicon
    {
      if entry in entries then Some(entries[entry].lexicon) else None
    }

    /** `get_artificial`: false for a missing row. */
    function Artificial(row: Option<RowId>): (r: bool)
      reads this
      ensures r ==> row.Some? && row.value in lexicons && lexicons[row.value].meta.Some?
    {
      row.Some? && row.value in lexicons && IsArtificial(lexicons[row.value].meta)
    }

    /** The modified flag of a lexicon row; a missing row reads as unmodified. */
    function Modified(row: Option<RowId>): (r: bool)
      reads this
      ensures r ==> row.Some? && row.value in lexicons
    {
      row.Some? && row.value in lexicons && lexicons[row.value].modified
    }

    /** `_Editor.set_modified`: the flag of every target row that exists is
        set, and nothing else changes. */
    method SetModified(scope: Scope)
      requires Valid()
      modifies this
      ensures Valid()
      ensures State() == old(State()).(lexicons := MarkModified(old(lexicons), Targets(scope)))
    {
      var rows := match scope
        case One(r) => if r.Some? then [r.value] else []
        case Every(rs) => rs;
      assert Members(rows) == Targets(scope) by {
        if scope.One? && scope.rowid.Some? {
          assert rows[..0] == [];
        }
      }
      var marked := MarkEach(lexicons, rows);
      MarkModifiedOnlyFlags(lexicons, Targets(scope));
      lexicons := marked;
    }

    /** `_get_all_lexicon_row_ids` as evidently intended: the row id of
        every lexicon. */
    method AllLexiconRowIds() returns (rows: seq<RowId>)
      ensures forall k :: k in rows <==> k in lexicons
      ensures forall i, j :: 0 <= i < j < |rows| ==> rows[i] != rows[j]
      ensures |rows| == |lexicons|
      ensures AllLexiconRowIdsAsWritten(rows).Err? <==> |lexicons| > 0
    {
      rows := [];
      var rest := lexicons.Keys;
      while rest != {}
        invariant rest <= lexicons.Keys
        invariant forall k :: k in rows <==> k in lexicons && k !in rest
        invariant forall i, j :: 0 <= i < j < |rows| ==> rows[i] != rows[j]
        invariant |rows| + |rest| == |lexicons|
        decreases |rest|
      {
        var k :| k in rest;
        rows := rows + [k];
        rest := rest - {k};
      }
    }

    /** The dirty marking of an ILI editor: its scope is the list of all
        lexicon rows, so one change marks every lexicon. */
    method IliSetModified()
      requires Valid()
      modifies this
      ensures Valid()
      ensures State() == old(State()).(lexicons := MarkModified(old(lexicons), old(lexicons).Keys))
      ensures forall k :: k in lexicons ==> lexicons[k].modified
    {
      var rows := AllLexiconRowIds();
      MembersSpec(rows);
      assert Targets(Every(rows)) == lexicons.Keys;
      SetModified(Every(rows));
    }


    /** `INSERT INTO lexicons`: the row takes the next row id. */
    method InsertLexicon(row: LexiconRow) returns (k: RowId)
      requires Valid()
      modifies this
      ensures Valid() && k == old(nextRowid)
      ensures State() == old(State()).(lexicons := old(lexicons)[k := row], nextRowid := k + 1)
    {
      k := nextRowid;
      lexicons := lexicons[k := row];
      nextRowid := nextRowid + 1;
    }

    /** `INSERT INTO synsets`. */
    method InsertSynset(row: SynsetRow) returns (k: RowId)
      requires Valid()
      modifies this
      ensures Valid() && k == old(nextRowid)
      ensures State() == old(State()).(synsets := old(synsets)[k := row], nextRowid := k + 1)
    {
      k := nextRowid;
      synsets := synsets[k := row];
      nextRowid := nextRowid + 1;
    }

    /** `INSERT INTO entries`. */
    method InsertEntry(row: EntryRow) returns (k: RowId)
      requires Valid()
      modifies this
      ensures Valid() && k == old(nextRowid)
      ensures State() == old(State()).(entries := old(entries)[k := row], nextRowid := k + 1)
    {
      k := nextRowid;
      entries := entries[k := row];
      nextRowid := nextRowid + 1;
    }

    /** `INSERT INTO senses`, for an entry that exists. */
    method InsertSense(row: SenseRow) returns (k: RowId)
      requires Valid() && row.entry in entries
      modifies this
      ensures Valid() && k == old(nextRowid)
      ensures State() == old(State()).(senses := old(senses)[k := row], nextRowid := k + 1)
    {
      k := nextRowid;
      senses := senses[k := row];
      nextRowid := nextRowid + 1;
    }

    /** `INSERT INTO forms`, for an entry that exists. */
    method InsertForm(row: FormRow) returns (k: RowId)
      requires Valid() && row.entry in entries
      modifies this
      ensures Valid() && k == old(nextRowid)
      ensures State() == old(State()).(forms := old(forms)[k := row], nextRowid := k + 1)
    {
      k := nextRowid;
      forms := forms[k := row];
      nextRowid := nextRowid + 1;
    }

    /** `LexiconEditor.create_new_lexicon`: the row is inserted unmodified,
        with the artificial marker appended to its note, then re-resolved
        by (id, version), which finds nothing when an older lexicon has the
        same id and version. */
    method CreateLexicon(id: string, lexLabel: string, language: string, email: string, license: string,
                         version: string, url: Option<string>, citation: Option<string>,
                         logo: Option<string>, meta: Option<Metadata>)
      returns (ed: Option<RowId>)
      requires Valid()
      modifies this
      ensures Valid()
      ensures var k := old(nextRowid);
        State() == old(State()).(
          lexicons := old(lexicons)[k := LexiconRow(id, lexLabel, language, email, license, version,
                                                    url, citation, logo, Some(MarkArtificial(meta)), false)],
          nextRowid := k + 1)
      ensures Artificial(Some(old(nextRowid))) && !Modified(Some(old(nextRowid)))
      ensures ed.Some? <==> !HasKey(old(lexicons), LexiconKey, (id, version))
      ensures ed.Some? ==> ed.value == old(nextRowid)
    {
      MarkArtificialSpec(meta);
      ghost var before := lexicons;
      var row := LexiconRow(id, lexLabel, language, email, license, version,
                            url, citation, logo, Some(MarkArtificial(meta)), false);
      var k := InsertLexicon(row);
      LookupAfterInsert(before, k, row, LexiconKey);
      ed := LookupRowId(KeysBy(lexicons, LexiconKey), LexiconKey(row));
    }

    /** `SynsetEditor(lex_rowid)`: the id `<lexicon id>-<n>-u` is allocated
        within the lexicon, then `_create` marks the lexicon, inserts the
        synset and re-resolves it by (id, lexicon), which always finds it.
        A missing lexicon has no name, so building the id raises before
        anything is written. */
    method SynsetCreate(lex: RowId) returns (r: Result<SynsetEditor>)
      requires Valid()
      modifies this
      ensures Valid()
      ensures r.Err? <==> lex !in old(lexicons)
      ensures r.Err? ==> r.error == TypeError && State() == old(State())
      ensures r.Ok? ==>
        var k := old(nextRowid);
        && r.value == SynsetEditor(lex, k)
        && k in synsets
        && IsAllocatedId(old(SynsetIdsOf(lex)), old(lexicons)[lex].id + "-", "-u", synsets[k].id)
        && State() == old(State()).(
             lexicons := MarkModified(old(lexicons), {lex}),
             synsets := old(synsets)[k := SynsetRow(synsets[k].id, lex, None, None)],
             nextRowid := k + 1)
    {
      var name := LexiconName(lex);
      if name.None? {
        return Err(TypeError);
      }
      var prefix := name.value + "-";
      var m := MaxSuffix(SynsetIdsOf(lex), prefix);
      var id := IdFromMax(prefix, m) + "-u";
      AllocatedIdIsFresh(SynsetIdsOf(lex), prefix, m, "-u");
      SetModified(One(Some(lex)));
      ghost var before := synsets;
      assert !HasKey(before, SynsetKey, (id, lex)) by {
        forall j | j in before ensures SynsetKey(before[j]) != (id, lex) {
          if before[j].lexicon == lex {
            assert before[j].id in SynsetIdsOf(lex);
          }
        }
      }
      var row := SynsetRow(id, lex, None, None);
      var k := InsertSynset(row);
      LookupAfterInsert(before, k, row, SynsetKey);
      var found := LookupRowId(KeysBy(synsets, SynsetKey), SynsetKey(row));
      r := Ok(SynsetEditor(lex, found.value));
    }

    /** `EntryEditor(lex_rowid, exists=False)`: `_create` marks the lexicon,
        allocates an entry id over the entries of every lexicon, inserts the
        entry with part of speech "u" and re-resolves it by (id, lexicon),
        which always finds it. The insert fails when the lexicon does not
        exist. */
    method EntryCreate(lex: RowId) returns (r: Result<EntryEditor>)
      requires Valid()
      modifies this
      ensures Valid()
      ensures r.Err? <==> lex !in old(lexicons)
      ensures r.Err? ==> r.error == IntegrityError && State() == old(State())
      ensures r.Ok? ==>
        var k := old(nextRowid);
        && r.value == EntryEditor(lex, k)
        && k in entries
        && IsAllocatedId(old(EntryIds()), "w", "", entries[k].id)
        && State() == old(State()).(
             lexicons := MarkModified(old(lexicons), {lex}),
             entries := old(entries)[k := EntryRow(entries[k].id, lex, "u")],
             nextRowid := k + 1)
    {
      SetModified(One(Some(lex)));
      var m := MaxSuffix(EntryIds(), "w");
      var id := EntryId(m);
      EntryIdCorrected(EntryIds(), m);
      assert id == IdFromMax("w", m) + "";
      if lex !in lexicons {
        MarkModifiedAbsent(old(lexicons), {lex});
        return Err(IntegrityError);
      }
      ghost var before := entries;
      assert !HasKey(before, EntryKey, (id, lex)) by {
        forall j | j in before ensures EntryKey(before[j]) != (id, lex) {
          assert before[j].id in EntryIds();
        }
      }
      var row := EntryRow(id, lex, "u");
      var k := InsertEntry(row);
      LookupAfterInsert(before, k, row, EntryKey);
      var found := LookupRowId(KeysBy(entries, EntryKey), EntryKey(row));
      r := Ok(EntryEditor(lex, found.value));
    }

    /** `SenseEditor(lexicon_rowid=.., entry_rowid=.., synset_rowid=..)`:
        the constructor's argument check, then `_create` marks the lexicon,
        allocates `w_unkown_<n>` within the entry, inserts the sense and
        re-resolves it by (id, lexicon); that lookup finds nothing when
        another sense of the lexicon already has the id. The insert fails
        when the lexicon, the entry or the synset does not exist. */
    method SenseCreate(lex: Option<RowId>, entry: Option<RowId>, synset: Option<RowId>)
      returns (r: Result<SenseEditor>)
      requires Valid()
      modifies this
      ensures Valid()
      ensures Given(lex, entry, synset) != 3 ==> r == Err(AttributeError) && State() == old(State())
      ensures Given(lex, entry, synset) == 3 ==>
        (r.Err? <==> lex.value !in old(lexicons) || entry.value !in old(entries) || synset.value !in old(synsets))
      ensures Given(lex, entry, synset) == 3 && r.Err? ==>
        r.error == IntegrityError && State() == old(State()).(lexicons := MarkModified(old(lexicons), {lex.value}))
      ensures r.Ok? ==>
        var k := old(nextRowid);
        && Given(lex, entry, synset) == 3
        && r.value.lex == lex.value && r.value.entry == entry.value && r.value.synset == synset.value
        && k in senses
        && IsAllocatedId(old(SenseIdsOf(entry.value)), DefaultSensePrefix, "", senses[k].id)
        && State() == old(State()).(
             lexicons := MarkModified(old(lexicons), {lex.value}),
             senses := old(senses)[k := SenseRow(senses[k].id, lex.value, entry.value, synset.value)],
             nextRowid := k + 1)
        && (r.value.row.Some? <==> !HasKey(old(senses), SenseKey, SenseKey(senses[k])))
        && (r.value.row.Some? ==> r.value.row.value == k)
    {
      var mode := SenseEditorMode(false, lex, entry, synset);
      if mode.Err? {
        return Err(AttributeError);
      }
      SetModified(One(lex));
      var m := MaxSuffix(SenseIdsOf(entry.value), DefaultSensePrefix);
      var id := IdFromMax(DefaultSensePrefix, m);
      assert id == IdFromMax(DefaultSensePrefix, m) + "";
      if lex.value !in lexicons || entry.value !in entries || synset.value !in synsets {
        return Err(IntegrityError);
      }
      ghost var before := senses;
      var row := SenseRow(id, lex.value, entry.value, synset.value);
      var k := InsertSense(row);
      LookupAfterInsert(before, k, row, SenseKey);
      var found := LookupRowId(KeysBy(senses, SenseKey), SenseKey(row));
      r := Ok(SenseEditor(lex.value, entry.value, synset.value, found));
    }

    /** `SenseEditor.set_id`: the lexicon is marked and the sense row, when
        the editor has one, takes the new id. */
    method SenseSetId(ed: SenseEditor, newId: string)
      requires Valid()
      modifies this
      ensures Valid()
      ensures State() == old(State()).(
        lexicons := MarkModified(old(lexicons), {ed.lex}),
        senses := if ed.row.Some? && ed.row.value in old(senses)
                  then old(senses)[ed.row.value := old(senses)[ed.row.value].(id := newId)]
                  else old(senses))
    {
      SetModified(One(Some(ed.lex)));
      if ed.row.Some? && ed.row.value in senses {
        senses := senses[ed.row.value := senses[ed.row.value].(id := newId)];
      }
    }

    /** `FormEditor(entry_id)`: the editor's lexicon is the entry's one;
        `_create` marks it, inserts the placeholder form "_" and
        re-resolves it by (entry, form), which finds nothing when the entry
        already has a placeholder form. The insert fails when the entry or
        its lexicon does not exist. */
    method FormCreate(entry: RowId) returns (r: Result<FormEditor>)
      requires Valid()
      modifies this
      ensures Valid()
      ensures r.Err? <==> entry !in old(entries) || old(entries)[entry].lexicon !in old(lexicons)
      ensures r.Err? ==> r.error == IntegrityError && State() == old(State())
      ensures r.Ok? ==>
        var k := old(nextRowid);
        var lex := old(entries)[entry].lexicon;
        && r.value.lex == lex && r.value.entry == entry
        && State() == old(State()).(
             lexicons := MarkModified(old(lexicons), {lex}),
             forms := old(forms)[k := FormRow(lex, entry, "_", None)],
             nextRowid := k + 1)
        && (r.value.row.Some? <==> !HasKey(old(forms), FormKey, (entry, "_")))
        && (r.value.row.Some? ==> r.value.row.value == k)
    {
      var lex := EntryLexicon(entry);
      SetModified(One(lex));
      if lex.None? || lex.value !in lexicons {
        if lex.Some? {
          MarkModifiedAbsent(old(lexicons), {lex.value});
        }
        return Err(IntegrityError);
      }
      ghost var before := forms;
      var row := FormRow(lex.value, entry, "_", None);
      var k := InsertForm(row);
      LookupAfterInsert(before, k, row, FormKey);
      var found := LookupRowId(KeysBy(forms, FormKey), FormKey(row));
      r := Ok(FormEditor(lex.value, entry, found));
    }

    /** `FormEditor.set_form`: the lexicon is marked and the form row, when
        the editor has one, takes the new text. */
    method FormSetForm(ed: FormEditor, form: string)
      requires Valid()
      modifies this
      ensures Valid()
      ensures State() == old(State()).(
        lexicons := MarkModified(old(lexicons), {ed.lex}),
        forms := if ed.row.Some? && ed.row.value in old(forms)
                 then old(forms)[ed.row.value := old(forms)[ed.row.value].(form := form)]
                 else old(forms))
    {
      SetModified(One(Some(ed.lex)));
      if ed.row.Some? && ed.row.value in forms {
        forms := forms[ed.row.value := forms[ed.row.value].(form := form)];
      }
    }

    /** `FormEditor.set_normalized_form`. */
    method FormSetNormalizedForm(ed: FormEditor, normalized: string)
      requires Valid()
      modifies this
      ensures Valid()
      ensures State() == old(State()).(
        lexicons := MarkModified(old(lexicons), {ed.lex}),
        forms := if ed.row.Some? && ed.row.value in old(forms)
                 then old(forms)[ed.row.value := old(forms)[ed.row.value].(normalized := Some(normalized))]
                 else old(forms))
    {
      SetModified(One(Some(ed.lex)));
      if ed.row.Some? && ed.row.value in forms {
        forms := forms[ed.row.value := forms[ed.row.value].(normalized := Some(normalized))];
      }
    }

    /** The two updates `EntryEditor.add_form` makes through a new form
        editor: the text, then the normalized text when one is given and
        non-empty. When the editor has no row they touch no form. */
    method FillForm(ed: FormEditor, form: string, normalized: Option<string>)
      requires Valid()
      modifies this
      ensures Valid()
      ensures var norm := if normalized.Some? && normalized.value != "" then normalized else None;
        State() == old(State()).(
          lexicons := MarkModified(old(lexicons), {ed.lex}),
          forms := if ed.row.Some? && ed.row.value in old(forms)
                   then old(forms)[ed.row.value := old(forms)[ed.row.value].(
                          form := form, normalized := if norm.Some? then norm else old(forms)[ed.row.value].normalized)]
                   else old(forms))
    {
      ghost var t0 := State();
      FormSetForm(ed, form);
      if normalized.Some? && normalized.value != "" {
        ghost var t1 := State();
        MarkModifiedTwice(t0.lexicons, {ed.lex}, {ed.lex});
        assert {ed.lex} + {ed.lex} == {ed.lex};
        FormSetNormalizedForm(ed, normalized.value);
        if ed.row.Some? && ed.row.value in t0.forms {
          assert forms == t1.forms[ed.row.value := t1.forms[ed.row.value].(normalized := normalized)];
        }
      }
    }

    /** `EntryEditor.add_form`: a form editor for the entry, then its text,
        then its normalized text when one is given and non-empty. When the
        new form could not be re-resolved the updates touch no row and the
        placeholder stays. */
    method EntryAddForm(ed: EntryEditor, form: string, normalized: Option<string>)
      returns (r: Result<FormEditor>)
      requires Valid()
      modifies this
      ensures Valid()
      ensures r.Err? <==> ed.entry !in old(entries) || old(entries)[ed.entry].lexicon !in old(lexicons)
      ensures r.Err? ==> r.error == IntegrityError && State() == old(State())
      ensures r.Ok? ==>
        var k := old(nextRowid);
        var lex := old(entries)[ed.entry].lexicon;
        var found := !HasKey(old(forms), FormKey, (ed.entry, "_"));
        var norm := if normalized.Some? && normalized.value != "" then normalized else None;
        && r.value == FormEditor(lex, ed.entry, if found then Some(k) else None)
        && State() == old(State()).(
             lexicons := MarkModified(old(lexicons), {lex}),
             forms := old(forms)[k := if found then FormRow(lex, ed.entry, form, norm)
                                      else FormRow(lex, ed.entry, "_", None)],
             nextRowid := k + 1)
    {
      r := FormCreate(ed.entry);
      if r.Err? {
        return;
      }
      var lex := r.value.lex;
      MarkModifiedTwice(old(lexicons), {lex}, {lex});
      assert {lex} + {lex} == {lex};
      FillForm(r.value, form, normalized);
    }

    /** The rename in `SynsetEditor.add_word`: the sense just created for
        a new entry, whose only sense id is `w_unkown_0`, takes the word's
        next sense id within the entry. */
    method RenameFirstSense(ed: SenseEditor, word: string)
      requires Valid() && ed.lex in lexicons && SenseIdsOf(ed.entry) == {DefaultSensePrefix + "0"}
      modifies this
      ensures Valid()
      ensures State() == old(State()).(
        lexicons := MarkModified(old(lexicons), {ed.lex}),
        senses := if ed.row.Some? && ed.row.value in old(senses)
                  then old(senses)[ed.row.value := old(senses)[ed.row.value].(id := WordSenseId(word))]
                  else old(senses))
    {
      var m := MaxSuffix(SenseIdsOf(ed.entry), SensePrefix(word));
      WordSenseIdAllocated(word, m);
      SenseSetId(ed, IdFromMax(SensePrefix(word), m));
    }

    /** The creation in `SynsetEditor.add_word`: the first sense of an
        entry with no senses is `w_unkown_0`, and it becomes the entry's
        only sense id. */
    method CreateFirstSense(ed: SynsetEditor, entry: RowId) returns (r: Result<SenseEditor>)
      requires Valid() && ed.lex in lexicons && entry in entries && SenseIdsOf(entry) == {}
      modifies this
      ensures Valid()
      ensures r.Err? <==> ed.row !in old(synsets)
      ensures r.Err? ==> r.error == (if ed.row == 0 then AttributeError else IntegrityError)
      ensures r.Err? && ed.row == 0 ==> State() == old(State())
      ensures r.Err? && ed.row != 0 ==> State() == old(State()).(lexicons := MarkModified(old(lexicons), {ed.lex}))
      ensures r.Ok? ==>
        var k := old(nextRowid);
        && r.value.lex == ed.lex && r.value.entry == entry
        && (r.value.row.Some? <==> !HasKey(old(senses), SenseKey, (DefaultSensePrefix + "0", ed.lex)))
        && (r.value.row.Some? ==> r.value.row.value == k)
        && State() == old(State()).(
             lexicons := MarkModified(old(lexicons), {ed.lex}),
             senses := old(senses)[k := SenseRow(DefaultSensePrefix + "0", ed.lex, entry, ed.row)],
             nextRowid := k + 1)
        && SenseIdsOf(entry) == {DefaultSensePrefix + "0"}
    {
      ghost var k := nextRowid;
      r := SenseCreate(Some(ed.lex), Some(entry), Some(ed.row));
      if r.Err? {
        return;
      }
      ghost var sid0 := senses[k].id;
      assert sid0 == DefaultSensePrefix + "0" by {
        FirstIdOfEmptyScope(DefaultSensePrefix, "", sid0);
      }
      assert SenseIdsOf(entry) == {sid0} by {
        assert senses[k].entry == entry;
      }
    }

    /** The sense step of `SynsetEditor.add_word`: a sense of the new
        entry (which has no senses yet) in the synset, created as
        `w_unkown_0`, then renamed to the word's next sense id within the
        entry. The rename reaches no row when another sense of the lexicon
        already had `w_unkown_0`, since the new sense was then not
        re-resolved. */
    method AddWordSense(ed: SynsetEditor, entry: RowId, word: string) returns (r: Result<SenseEditor>)
      requires Valid() && ed.lex in lexicons && entry in entries && SenseIdsOf(entry) == {}
      modifies this
      ensures Valid()
      ensures r.Err? <==> ed.row !in old(synsets)
      ensures r.Err? ==> r.error == (if ed.row == 0 then AttributeError else IntegrityError)
      ensures r.Err? && ed.row == 0 ==> State() == old(State())
      ensures r.Err? && ed.row != 0 ==> State() == old(State()).(lexicons := MarkModified(old(lexicons), {ed.lex}))
      ensures r.Ok? ==>
        var k := old(nextRowid);
        var clash := HasKey(old(senses), SenseKey, (DefaultSensePrefix + "0", ed.lex));
        State() == old(State()).(
          lexicons := MarkModified(old(lexicons), {ed.lex}),
          senses := old(senses)[k := SenseRow(if clash then DefaultSensePrefix + "0" else WordSenseId(word),
                                              ed.lex, entry, ed.row)],
          nextRowid := k + 1)
    {
      ghost var t0 := State();
      ghost var k := nextRowid;
      ghost var lex := ed.lex;
      var sense := CreateFirstSense(ed, entry);
      if sense.Err? {
        return Err(sense.error);
      }
      ghost var t1 := State();
      MarkModifiedTwice(t0.lexicons, {lex}, {lex});
      assert {lex} + {lex} == {lex};
      RenameFirstSense(sense.value, word);
      ghost var clash := HasKey(t0.senses, SenseKey, (DefaultSensePrefix + "0", lex));
      if clash {
        assert senses == t1.senses;
      } else {
        assert senses == t0.senses[k := SenseRow(WordSenseId(word), lex, entry, ed.row)];
      }
      r := sense;
    }

    /** The steps of `SynsetEditor.add_word` after the entry is created:
        the sense (see `AddWordSense`), then the word as the entry's form. */
    method AddWordRest(ed: SynsetEditor, entry: RowId, word: string) returns (r: Result<SynsetEditor>)
      requires Valid() && ed.lex in lexicons && entry in entries && entries[entry].lexicon == ed.lex
      requires SenseIdsOf(entry) == {} && forall j :: j in forms ==> forms[j].entry != entry
      modifies this
      ensures Valid()
      ensures r.Err? <==> ed.row !in old(synsets)
      ensures r.Err? ==> r.error == (if ed.row == 0 then AttributeError else IntegrityError)
      ensures r.Err? && ed.row == 0 ==> State() == old(State())
      ensures r.Err? && ed.row != 0 ==> State() == old(State()).(lexicons := MarkModified(old(lexicons), {ed.lex}))
      ensures r.Ok? ==>
        var k := old(nextRowid);
        var clash := HasKey(old(senses), SenseKey, (DefaultSensePrefix + "0", ed.lex));
        && r.value == ed
        && State() == old(State()).(
             lexicons := MarkModified(old(lexicons), {ed.lex}),
             senses := old(senses)[k := SenseRow(if clash then DefaultSensePrefix + "0" else WordSenseId(word),
                                                 ed.lex, entry, ed.row)],
             forms := old(forms)[k + 1 := FormRow(ed.lex, entry, word, None)],
             nextRowid := k + 2)
    {
      ghost var lex := ed.lex;
      var sense := AddWordSense(ed, entry, word);
      if sense.Err? {
        return Err(sense.error);
      }
      MarkModifiedTwice(old(lexicons), {lex}, {lex});
      assert {lex} + {lex} == {lex};
      assert !HasKey(forms, FormKey, (entry, "_")) by {
        forall j | j in forms ensures FormKey(forms[j]) != (entry, "_") { }
      }
      var f := EntryAddForm(EntryEditor(ed.lex, entry), word, None);
      assert f.Ok? && f.value.row == Some(old(nextRowid) + 1);
      r := Ok(ed);
    }

    /** `SynsetEditor.add_word`: the lexicon is marked, a new entry is
        created, then a sense linking it to the synset under the word's
        first sense id (see `AddWordSense`), then the word is added as the
        entry's form. A missing lexicon fails before anything is written, a
        missing synset after the entry is stored. */
    method AddWord(ed: SynsetEditor, word: string) returns (r: Result<SynsetEditor>)
      requires Valid()
      modifies this
      ensures Valid()
      ensures r.Err? <==> ed.lex !in old(lexicons) || ed.row !in old(synsets)
      ensures r.Err? ==> r.error == (if ed.lex in old(lexicons) && ed.row == 0 then AttributeError else IntegrityError)
      ensures r.Err? && ed.lex !in old(lexicons) ==> State() == old(State())
      ensures r.Err? && ed.lex in old(lexicons) ==>
        var k := old(nextRowid);
        && k in entries
        && State() == old(State()).(
             lexicons := MarkModified(old(lexicons), {ed.lex}),
             entries := old(entries)[k := EntryRow(entries[k].id, ed.lex, "u")],
             nextRowid := k + 1)
      ensures r.Ok? ==>
        var k := old(nextRowid);
        var clash := HasKey(old(senses), SenseKey, (DefaultSensePrefix + "0", ed.lex));
        && r.value == ed
        && k in entries
        && IsAllocatedId(old(EntryIds()), "w", "", entries[k].id)
        && State() == old(State()).(
             lexicons := MarkModified(old(lexicons), {ed.lex}),
             entries := old(entries)[k := EntryRow(entries[k].id, ed.lex, "u")],
             senses := old(senses)[k + 1 := SenseRow(if clash then DefaultSensePrefix + "0" else WordSenseId(word),
                                                     ed.lex, k, ed.row)],
             forms := old(forms)[k + 2 := FormRow(ed.lex, k, word, None)],
             nextRowid := k + 3)
    {
      ghost var k := nextRowid;
      ghost var lex := ed.lex;
      SetModified(One(Some(ed.lex)));
      MarkModifiedTwice(old(lexicons), {lex}, {lex});
      assert {lex} + {lex} == {lex};
      var e := EntryCreate(ed.lex);
      if e.Err? {
        MarkModifiedAbsent(old(lexicons), {lex});
        return Err(e.error);
      }
      assert SenseIdsOf(k) == {};
      assert forall j :: j in forms ==> forms[j].entry != k;
      ghost var t2 := State();
      r := AddWordRest(ed, e.value.entry, word);
      assert r.Err? && ed.row != 0 ==> lexicons == t2.lexicons;
    }

    /** `as_synset`: the synset row joined with its lexicon row is found;
        otherwise the read-back raises IndexError. */
    function SynsetResolves(row: RowId): bool
      reads this
    {
      row in synsets && synsets[row].lexicon in lexicons
    }

    /** `as_sense`: the sense row of the editor is found; otherwise the
        read-back unpacks `None` and raises TypeError. */
    function SenseOf(row: Option<RowId>): (r: Option<SenseRef>)
      reads this
      ensures r.Some? <==> row.Some? && row.value in senses
      ensures r.Some? ==> r.value == SenseRef(senses[row.value].lexicon, row.value)
    {
      if row.Some? && row.value in senses then Some(SenseRef(senses[row.value].lexicon, row.value)) else None
    }

    /** `INSERT INTO` a relation table: one more row, at the end. */
    method LinkEdge(table: RelTable, e: Edge)
      requires Valid()
      modifies this
      ensures Valid()
      ensures State() == WithEdges(old(State()), table, Link(EdgesOf(old(State()), table), e))
    {
      match table
      case SynsetToSynset => synsetRelations := Link(synsetRelations, e);
      case SenseToSynset => senseSynsetRelations := Link(senseSynsetRelations, e);
      case SenseToSense => senseRelations := Link(senseRelations, e);
    }

    /** `DELETE FROM` a relation table by lexicon, source, target and type. */
    method UnlinkEdges(table: RelTable, lexicon: RowId, source: RowId, target: RowId, kind: int)
      requires Valid()
      modifies this
      ensures Valid()
      ensures State() == WithEdges(old(State()), table, Unlink(EdgesOf(old(State()), table), lexicon, source, target, kind))
    {
      match table
      case SynsetToSynset => synsetRelations := Unlink(synsetRelations, lexicon, source, target, kind);
      case SenseToSynset => senseSynsetRelations := Unlink(senseSynsetRelations, lexicon, source, target, kind);
      case SenseToSense => senseRelations := Unlink(senseRelations, lexicon, source, target, kind);
    }

    /** The textual target of `SynsetEditor.set_relation_to_synset`:
        `SynsetEditor(lex).add_word(word)`, a new synset of the lexicon
        holding the word through a new entry, sense and form. */
    method NewSynsetWithWord(lex: RowId, word: string) returns (r: Result<SynsetRef>)
      requires Valid()
      modifies this
      ensures Valid()
      ensures r.Err? <==> lex !in old(lexicons)
      ensures r.Err? ==> r.error == TypeError && State() == old(State())
      ensures r.Ok? ==>
        var k := old(nextRowid);
        && r.value == SynsetRef(lex, k)
        && k in synsets && k + 1 in entries && k + 2 in senses
        && State() == old(State()).(
             lexicons := MarkModified(old(lexicons), {lex}),
             synsets := old(synsets)[k := SynsetRow(synsets[k].id, lex, None, None)],
             entries := old(entries)[k + 1 := EntryRow(entries[k + 1].id, lex, "u")],
             senses := old(senses)[k + 2 := SenseRow(senses[k + 2].id, lex, k + 1, k)],
             forms := old(forms)[k + 3 := FormRow(lex, k + 1, word, None)],
             nextRowid := k + 4)
    {
      ghost var k := nextRowid;
      var s := SynsetCreate(lex);
      if s.Err? {
        return Err(s.error);
      }
      ghost var t1 := State();
      MarkModifiedTwice(old(lexicons), {lex}, {lex});
      assert {lex} + {lex} == {lex};
      assert s.value.lex in lexicons && s.value.row in synsets;
      var w := AddWord(s.value, word);
      assert w.Ok?;
      assert lexicons == MarkModified(old(lexicons), {lex});
      assert synsets == t1.synsets;
      r := Ok(SynsetRef(lex, s.value.row));
    }

    /** The insert of `SynsetEditor.set_relation_to_synset` once the other
        synset is known: the editor's synset is read back (IndexError when
        it cannot be), then the row (lexicon of the other synset, the other
        synset, this synset, type) is added. */
    method LinkToSynset(ed: SynsetEditor, source: SynsetRef, t: RelType) returns (r: Result<SynsetEditor>)
      requires Valid()
      modifies this
      ensures Valid()
      ensures r.Err? <==> !old(SynsetResolves(ed.row))
      ensures r.Err? ==> r.error == IndexError && State() == old(State())
      ensures r.Ok? ==> r.value == ed && State() == old(State()).(
        synsetRelations := Link(old(synsetRelations), Edge(source.lexicon, source.row, ed.row, TypeValue(t))))
    {
      if !SynsetResolves(ed.row) {
        return Err(IndexError);
      }
      LinkEdge(SynsetToSynset, Edge(source.lexicon, source.row, ed.row, TypeValue(t)));
      r := Ok(ed);
    }

    /** `SynsetEditor.set_relation_to_synset`: the lexicon is marked; a
        word is first turned into a new synset of the editor's lexicon;
        then the relation from the other synset to this one is added. */
    method SynsetSetRelation(ed: SynsetEditor, target: SynsetTarget, t: RelType) returns (r: Result<SynsetEditor>)
      requires Valid()
      modifies this
      ensures Valid()
      ensures target.Existing? ==>
        && (r.Err? <==> !old(SynsetResolves(ed.row)))
        && (r.Err? ==> r.error == IndexError && State() == old(State()).(lexicons := MarkModified(old(lexicons), {ed.lex})))
        && (r.Ok? ==> r.value == ed && State() == old(State()).(
              lexicons := MarkModified(old(lexicons), {ed.lex}),
              synsetRelations := Link(old(synsetRelations),
                                      Edge(target.synset.lexicon, target.synset.row, ed.row, TypeValue(t)))))
      ensures target.Word? && ed.lex !in old(lexicons) ==> r == Err(TypeError) && State() == old(State())
      ensures target.Word? && ed.lex in old(lexicons) ==>
        var k := old(nextRowid);
        && k in synsets && k + 1 in entries && k + 2 in senses
        && (r.Err? <==> !SynsetResolves(ed.row))
        && (r.Err? ==> r.error == IndexError)
        && State() == old(State()).(
             lexicons := MarkModified(old(lexicons), {ed.lex}),
             synsets := old(synsets)[k := SynsetRow(synsets[k].id, ed.lex, None, None)],
             entries := old(entries)[k + 1 := EntryRow(entries[k + 1].id, ed.lex, "u")],
             senses := old(senses)[k + 2 := SenseRow(senses[k + 2].id, ed.lex, k + 1, k)],
             forms := old(forms)[k + 3 := FormRow(ed.lex, k + 1, target.word, None)],
             synsetRelations := if r.Ok? then Link(old(synsetRelations), Edge(ed.lex, k, ed.row, TypeValue(t)))
                                else old(synsetRelations),
             nextRowid := k + 4)
    {
      SetModified(One(Some(ed.lex)));
      var source: SynsetRef;
      if target.Existing? {
        source := target.synset;
      } else {
        MarkModifiedTwice(old(lexicons), {ed.lex}, {ed.lex});
        assert {ed.lex} + {ed.lex} == {ed.lex};
        var s := NewSynsetWithWord(ed.lex, target.word);
        if s.Err? {
          MarkModifiedAbsent(old(lexicons), {ed.lex});
          return Err(s.error);
        }
        source := s.value;
      }
      r := LinkToSynset(ed, source, t);
    }

    /** `SynsetEditor.delete_relation_to_synset`: the lexicon is marked,
        then the relations from the given synset, or from every synset the
        lexicon library finds for a word, to this one are deleted. Each
        deletion reads the editor's synset back first, so an empty list of
        found synsets never raises. */
    method SynsetDeleteRelation(ed: SynsetEditor, target: DeleteTarget, t: RelType) returns (r: Result<SynsetEditor>)
      requires Valid()
      modifies this
      ensures Valid()
      ensures r.Err? <==> !old(SynsetResolves(ed.row)) && !(target.AllNamed? && target.found == [])
      ensures r.Err? ==> r.error == IndexError && State() == old(State()).(lexicons := MarkModified(old(lexicons), {ed.lex}))
      ensures r.Ok? ==> r.value == ed && State() == old(State()).(
        lexicons := MarkModified(old(lexicons), {ed.lex}),
        synsetRelations := match target
          case Only(s) => Unlink(old(synsetRelations), s.lexicon, s.row, ed.row, TypeValue(t))
          case AllNamed(_, found) => UnlinkAll(old(synsetRelations), found, ed.row, TypeValue(t)))
    {
      SetModified(One(Some(ed.lex)));
      if target.AllNamed? && target.found == [] {
        return Ok(ed);
      }
      if !SynsetResolves(ed.row) {
        return Err(IndexError);
      }
      match target {
        case Only(s) =>
          UnlinkEdges(SynsetToSynset, s.lexicon, s.row, ed.row, TypeValue(t));
        case AllNamed(_, found) =>
          synsetRelations := UnlinkEach(synsetRelations, found, ed.row, TypeValue(t));
      }
      r := Ok(ed);
    }

    /** `SynsetEditor.set_relation_to_sense`: the lexicon is marked, the
        editor's synset is read back (IndexError when it cannot be), then
        the row from the sense to this synset is added under the sense's
        lexicon (the corrected row; see `SenseSynsetEdge`). */
    method SynsetSetSenseRelation(ed: SynsetEditor, sense: SenseRef, t: RelType) returns (r: Result<SynsetEditor>)
      requires Valid()
      modifies this
      ensures Valid()
      ensures r.Err? <==> !old(SynsetResolves(ed.row))
      ensures r.Err? ==> r.error == IndexError && State() == old(State()).(lexicons := MarkModified(old(lexicons), {ed.lex}))
      ensures r.Ok? ==> r.value == ed && State() == old(State()).(
        lexicons := MarkModified(old(lexicons), {ed.lex}),
        senseSynsetRelations := Link(old(senseSynsetRelations), SenseSynsetEdge(sense, ed.row, TypeValue(t))))
    {
      SetModified(One(Some(ed.lex)));
      if !SynsetResolves(ed.row) {
        return Err(IndexError);
      }
      LinkEdge(SenseToSynset, SenseSynsetEdge(sense, ed.row, TypeValue(t)));
      r := Ok(ed);
    }

    /** `SynsetEditor.delete_relation_to_sense`: the lexicon is marked, the
        editor's synset is read back, then the rows from the sense to this
        synset with the type, under the sense's lexicon, are deleted. */
    method SynsetDeleteSenseRelation(ed: SynsetEditor, sense: SenseRef, t: RelType) returns (r: Result<SynsetEditor>)
      requires Valid()
      modifies this
      ensures Valid()
      ensures r.Err? <==> !old(SynsetResolves(ed.row))
      ensures r.Err? ==> r.error == IndexError && State() == old(State()).(lexicons := MarkModified(old(lexicons), {ed.lex}))
      ensures r.Ok? ==> r.value == ed && State() == old(State()).(
        lexicons := MarkModified(old(lexicons), {ed.lex}),
        senseSynsetRelations := Unlink(old(senseSynsetRelations), sense.lexicon, sense.row, ed.row, TypeValue(t)))
    {
      SetModified(One(Some(ed.lex)));
      if !SynsetResolves(ed.row) {
        return Err(IndexError);
      }
      UnlinkEdges(SenseToSynset, sense.lexicon, sense.row, ed.row, TypeValue(t));
      r := Ok(ed);
    }

    /** `SenseEditor.set_relation_to_synset`: the lexicon is marked, the
        editor's sense is read back (TypeError when it cannot be), then the
        row from this sense to the synset is added under the sense's
        lexicon. */
    method SenseSetSynsetRelation(ed: SenseEditor, synset: SynsetRef, t: RelType) returns (r: Result<SenseEditor>)
      requires Valid()
      modifies this
      ensures Valid()
      ensures r.Err? <==> old(SenseOf(ed.row)).None?
      ensures r.Err? ==> r.error == TypeError && State() == old(State()).(lexicons := MarkModified(old(lexicons), {ed.lex}))
      ensures r.Ok? ==> r.value == ed && State() == old(State()).(
        lexicons := MarkModified(old(lexicons), {ed.lex}),
        senseSynsetRelations := Link(old(senseSynsetRelations),
                                     SenseSynsetEdge(old(SenseOf(ed.row)).value, synset.row, TypeValue(t))))
    {
      SetModified(One(Some(ed.lex)));
      var s := SenseOf(ed.row);
      if s.None? {
        return Err(TypeError);
      }
      LinkEdge(SenseToSynset, SenseSynsetEdge(s.value, synset.row, TypeValue(t)));
      r := Ok(ed);
    }

    /** `SenseEditor.delete_relation_to_synset`. */
    method SenseDeleteSynsetRelation(ed: SenseEditor, synset: SynsetRef, t: RelType) returns (r: Result<SenseEditor>)
      requires Valid()
      modifies this
      ensures Valid()
      ensures r.Err? <==> old(SenseOf(ed.row)).None?
      ensures r.Err? ==> r.error == TypeError && State() == old(State()).(lexicons := MarkModified(old(lexicons), {ed.lex}))
      ensures r.Ok? ==>
        var s := old(SenseOf(ed.row)).value;
        r.value == ed && State() == old(State()).(
          lexicons := MarkModified(old(lexicons), {ed.lex}),
          senseSynsetRelations := Unlink(old(senseSynsetRelations), s.lexicon, s.row, synset.row, TypeValue(t)))
    {
      SetModified(One(Some(ed.lex)));
      var s := SenseOf(ed.row);
      if s.None? {
        return Err(TypeError);
      }
      UnlinkEdges(SenseToSynset, s.value.lexicon, s.value.row, synset.row, TypeValue(t));
      r := Ok(ed);
    }

    /** `SenseEditor.set_relation_to_sense`: the row from this sense to the
        other one, under this sense's lexicon. */
    method SenseSetSenseRelation(ed: SenseEditor, target: SenseRef, t: RelType) returns (r: Result<SenseEditor>)
      requires Valid()
      modifies this
      ensures Valid()
      ensures r.Err? <==> old(SenseOf(ed.row)).None?
      ensures r.Err? ==> r.error == TypeError && State() == old(State()).(lexicons := MarkModified(old(lexicons), {ed.lex}))
      ensures r.Ok? ==>
        var s := old(SenseOf(ed.row)).value;
        r.value == ed && State() == old(State()).(
          lexicons := MarkModified(old(lexicons), {ed.lex}),
          senseRelations := Link(old(senseRelations), Edge(s.lexicon, s.row, target.row, TypeValue(t))))
    {
      SetModified(One(Some(ed.lex)));
      var s := SenseOf(ed.row);
      if s.None? {
        return Err(TypeError);
      }
      LinkEdge(SenseToSense, Edge(s.value.lexicon, s.value.row, target.row, TypeValue(t)));
      r := Ok(ed);
    }

    /** `SenseEditor.delete_relation_to_sense`. */
    method SenseDeleteSenseRelation(ed: SenseEditor, target: SenseRef, t: RelType) returns (r: Result<SenseEditor>)
      requires Valid()
      modifies this
      ensures Valid()
      ensures r.Err? <==> old(SenseOf(ed.row)).None?
      ensures r.Err? ==> r.error == TypeError && State() == old(State()).(lexicons := MarkModified(old(lexicons), {ed.lex}))
      ensures r.Ok? ==>
        var s := old(SenseOf(ed.row)).value;
        r.value == ed && State() == old(State()).(
          lexicons := MarkModified(old(lexicons), {ed.lex}),
          senseRelations := Unlink(old(senseRelations), s.lexicon, s.row, target.row, TypeValue(t)))
    {
      SetModified(One(Some(ed.lex)));
      var s := SenseOf(ed.row);
      if s.None? {
        return Err(TypeError);
      }
      UnlinkEdges(SenseToSense, s.value.lexicon, s.value.row, target.row, TypeValue(t));
      r := Ok(ed);
    }

    /** `SynsetEditor.set_proposed_ili`: the lexicon is marked; when the
        synset has proposed-ILI rows they all take the definition (and the
        metadata when one is given), otherwise one row is inserted, which
        the store refuses when the synset does not exist. Either way the
        synset ends with its old rows, or with exactly the new one. */
    method SynsetSetProposedIli(ed: SynsetEditor, definition: string, meta: Option<Metadata>)
      returns (r: Result<SynsetEditor>)
      requires Valid()
      modifies this
      ensures Valid()
      ensures r.Err? <==> IliRowsOf(old(proposedIlis), ed.row) == {} && ed.row !in old(synsets)
      ensures r.Err? ==> r.error == IntegrityError && State() == old(State()).(lexicons := MarkModified(old(lexicons), {ed.lex}))
      ensures r.Ok? && IliRowsOf(old(proposedIlis), ed.row) != {} ==> State() == old(State()).(
        lexicons := MarkModified(old(lexicons), {ed.lex}),
        proposedIlis := UpdateIli(old(proposedIlis), ed.row, definition, meta))
      ensures r.Ok? && IliRowsOf(old(proposedIlis), ed.row) == {} ==>
        var k := old(nextRowid);
        State() == old(State()).(
          lexicons := MarkModified(old(lexicons), {ed.lex}),
          proposedIlis := old(proposedIlis)[k := ProposedIliRow(ed.row, definition, meta)],
          nextRowid := k + 1)
      ensures r.Ok? ==> r.value == ed
      ensures r.Ok? ==>
        var before := IliRowsOf(old(proposedIlis), ed.row);
        IliRowsOf(proposedIlis, ed.row) == (if before == {} then {old(nextRowid)} else before)
    {
      SetModified(One(Some(ed.lex)));
      if IliRowsOf(proposedIlis, ed.row) != {} {
        proposedIlis := UpdateIli(proposedIlis, ed.row, definition, meta);
      } else {
        if ed.row !in synsets {
          return Err(IntegrityError);
        }
        var k := nextRowid;
        var row := ProposedIliRow(ed.row, definition, meta);
        InsertIliOnlyRow(proposedIlis, k, row);
        proposedIlis := proposedIlis[k := row];
        nextRowid := k + 1;
      }
      r := Ok(ed);
    }

    /** `SynsetEditor.delete_proposed_ili`: the lexicon is marked and every
        proposed-ILI row of the synset is deleted. */
    method SynsetDeleteProposedIli(ed: SynsetEditor) returns (r: SynsetEditor)
      requires Valid()
      modifies this
      ensures Valid()
      ensures r == ed && State() == old(State()).(
        lexicons := MarkModified(old(lexicons), {ed.lex}),
        proposedIlis := DropIli(old(proposedIlis), ed.row))
    {
      SetModified(One(Some(ed.lex)));
      proposedIlis := DropIli(proposedIlis, ed.row);
      r := ed;
    }

    /** `LexiconEditor.delete_syntactic_behaviour`, which is not a marking
        method: the argument check, then the deletion by row id or by id,
        this lexicon and frame. */
    method LexiconDeleteBehaviour(lex: RowId, rowid: Option<int>, id: Option<string>, frame: Option<string>)
      returns (r: Result<BehaviourKey>)
      requires Valid()
      modifies this
      ensures Valid()
      ensures r == BehaviourDeletion(rowid, id, frame)
      ensures r.Err? ==> State() == old(State())
      ensures r.Ok? ==> State() == old(State()).(behaviours := DropBehaviours(old(behaviours), r.value, lex))
    {
      r := BehaviourDeletion(rowid, id, frame);
      if r.Ok? {
        behaviours := DropBehaviours(behaviours, r.value, lex);
      }
    }

    /** The row id `get_row_id` finds for a lexicon the library lists. */
    function LexiconRowOf(lex: LibraryLexicon): (r: Option<RowId>)
      reads this
      ensures r.Some? ==> r.value in lexicons && LexiconKey(lexicons[r.value]) == (lex.id, lex.version)
    {
      LookupRowId(KeysBy(lexicons, LexiconKey), (lex.id, lex.version))
    }

    /** What `reset_all_wordnets` reads about a listed lexicon. */
    function FactsOf(lex: LibraryLexicon): LexiconFacts
      reads this
    {
      var row := LexiconRowOf(lex);
      LexiconFacts(Spec(lex), Modified(row), Artificial(row))
    }

    /** What it reads about each lexicon of a list, in order. */
    function FactsList(installed: seq<LibraryLexicon>): (r: seq<LexiconFacts>)
      reads this
      ensures |r| == |installed|
      ensures forall i :: 0 <= i < |r| ==> r[i] == FactsOf(installed[i])
    {
      if installed == [] then [] else FactsList(installed[..|installed| - 1]) + [FactsOf(installed[|installed| - 1])]
    }

    lemma FactsListAppend(installed: seq<LibraryLexicon>, n: nat)
      requires n < |installed|
      ensures FactsList(installed[..n + 1]) == FactsList(installed[..n]) + [FactsOf(installed[n])]
    {
      assert installed[..n + 1][..n] == installed[..n];
    }

    /** `reset_all_wordnets`: for each lexicon the library lists, in order,
        the removal and re-download calls the reset policy asks for. The
        calls are returned rather than made; the store is only read. */
    method ResetAll(installed: seq<LibraryLexicon>, deleteArtificial: bool) returns (calls: seq<LibraryCall>)
      ensures calls == ResetPlan(FactsList(installed), deleteArtificial)
    {
      calls := [];
      for n := 0 to |installed|
        invariant calls == ResetPlan(FactsList(installed[..n]), deleteArtificial)
      {
        ghost var before := calls;
        var row := LexiconRowOf(installed[n]);
        var artificial := Artificial(row);
        var modified := Modified(row);
        if modified && (!artificial || deleteArtificial) {
          calls := calls + [Remove(Spec(installed[n]))];
          if !artificial {
            calls := calls + [Download(Spec(installed[n]))];
          }
        }
        assert calls == before + ResetCalls(FactsOf(installed[n]), deleteArtificial);
        FactsListAppend(installed, n);
        ResetPlanAppend(FactsList(installed[..n]), FactsOf(installed[n]), deleteArtificial);
      }
      assert installed[..|installed|] == installed;
    }

    /** `get_wordnet_overview`: one line per listed lexicon, in order,
        returned rather than printed. */
    method Overview(installed: seq<LibraryLexicon>) returns (lines: seq<string>)
      ensures |lines| == |installed|
      ensures forall i :: 0 <= i < |installed| ==>
        lines[i] == OverviewLine(Spec(installed[i]), installed[i].lexLabel,
                                 Modified(LexiconRowOf(installed[i])), Artificial(LexiconRowOf(installed[i])))
    {
      lines := [];
      for n := 0 to |installed|
        invariant |lines| == n
        invariant forall i :: 0 <= i < n ==>
          lines[i] == OverviewLine(Spec(installed[i]), installed[i].lexLabel,
                                   Modified(LexiconRowOf(installed[i])), Artificial(LexiconRowOf(installed[i])))
      {
        var row := LexiconRowOf(installed[n]);
        lines := lines + [OverviewLine(Spec(installed[n]), installed[n].lexLabel, Modified(row), Artificial(row))];
      }
    }
  }
}
