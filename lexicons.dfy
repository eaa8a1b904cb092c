/** What the editor keeps about a lexicon beyond its rows: the artificial
    marker in the metadata note, the reset policy and the overview line. */
module Lexicons {
  import opened Wrappers

  /** A lexicon's metadata column: a JSON object of text values. */
  type Metadata = map<string, string>

  const ArtificialTag := "_.artificial"
  const ArtificialNote := " _.artificial"

  /** Python's `t in s` on strings. */
  predicate Contains(s: string, t: string) {
    exists i :: 0 <= i <= |s| - |t| && OccursAt(s, t, i)
  }

  predicate OccursAt(s: string, t: string, i: nat)
    requires i + |t| <= |s|
  {
    s[i..i + |t|] == t
  }

  /** `get_artificial`: the metadata column is present, has a "note", and
      the note contains "_.artificial". */
  function IsArtificial(meta: Option<Metadata>): (r: bool)
    ensures r ==> meta.Some? && "note" in meta.value
  {
    meta.Some? && "note" in meta.value && Contains(meta.value["note"], ArtificialTag)
  }

  /** The note of a metadata object, "" when it has none. */
  function Note(meta: Metadata): string {
    if "note" in meta then meta["note"] else ""
  }

  /** `create_new_lexicon`'s metadata: absent metadata becomes `{}`, then the
      note gains the suffix " _.artificial" (an empty note counts as ""). */
  function MarkArtificial(meta: Option<Metadata>): (r: Metadata)
    ensures r.Keys == meta.GetOr(map[]).Keys + {"note"}
    ensures forall k :: k in r && k != "note" ==> r[k] == meta.GetOr(map[])[k]
  {
    var m := meta.GetOr(map[]);
    m["note" := Note(m) + ArtificialNote]
  }

  /** Marking keeps every other key and its value, extends the old note by
      the marker, and makes the lexicon artificial. */
  lemma MarkArtificialSpec(meta: Option<Metadata>)
    ensures var r := MarkArtificial(meta);
      && r.Keys == meta.GetOr(map[]).Keys + {"note"}
      && (forall k :: k in meta.GetOr(map[]) && k != "note" ==> r[k] == meta.value[k])
      && r["note"] == Note(meta.GetOr(map[])) + " _.artificial"
      && IsArtificial(Some(r))
  {
    var r := MarkArtificial(meta);
    var note := r["note"];
    var head := Note(meta.GetOr(map[])) + " ";
    assert ArtificialNote == " " + ArtificialTag;
    assert note == head + ArtificialTag;
    assert |note| == |head| + |ArtificialTag|;
    assert note[|head|..] == ArtificialTag;
    assert note[|head|..|head| + |ArtificialTag|] == note[|head|..];
    assert OccursAt(note, ArtificialTag, |head|);
  }

  /** Whether `reset_all_wordnets` removes a lexicon. */
  predicate RemovedOnReset(modified: bool, artificial: bool, deleteArtificial: bool)
    ensures !modified ==> !RemovedOnReset(modified, artificial, deleteArtificial)
    ensures modified && !artificial ==> RemovedOnReset(modified, artificial, deleteArtificial)
  {
    modified && (!artificial || deleteArtificial)
  }

  /** Whether it downloads the lexicon again after removing it. */
  predicate RedownloadedOnReset(modified: bool, artificial: bool, deleteArtificial: bool)
    ensures RedownloadedOnReset(modified, artificial, deleteArtificial) <==> modified && !artificial
  {
    RemovedOnReset(modified, artificial, deleteArtificial) && !artificial
  }

  /** What the store reports about one installed lexicon. */
  datatype LexiconFacts = LexiconFacts(spec: string, modified: bool, artificial: bool)

  /** Calls into the lexicon library that a reset makes, keyed by "id:version". */
  datatype LibraryCall = Remove(spec: string) | Download(spec: string)

  /** The calls the reset makes for one lexicon, in order. */
  function ResetCalls(f: LexiconFacts, deleteArtificial: bool): seq<LibraryCall> {
    if RemovedOnReset(f.modified, f.artificial, deleteArtificial) then
      if !f.artificial then [Remove(f.spec), Download(f.spec)] else [Remove(f.spec)]
    else []
  }

  /** The calls of a whole reset, lexicon after lexicon. */
  function ResetPlan(fs: seq<LexiconFacts>, deleteArtificial: bool): seq<LibraryCall> {
    if fs == [] then [] else ResetPlan(fs[..|fs| - 1], deleteArtificial) + ResetCalls(fs[|fs| - 1], deleteArtificial)
  }

  lemma ResetPlanAppend(fs: seq<LexiconFacts>, f: LexiconFacts, deleteArtificial: bool)
    ensures ResetPlan(fs + [f], deleteArtificial) == ResetPlan(fs, deleteArtificial) + ResetCalls(f, deleteArtificial)
  {
    assert (fs + [f])[..|fs|] == fs;
  }

  /** A call of the plan names a lexicon that is removed (a removal) or
      removed and not artificial (a download), so unmodified lexicons and,
      without `deleteArtificial`, artificial ones are untouched. */
  lemma {:induction false} ResetPlanCalls(fs: seq<LexiconFacts>, deleteArtificial: bool, c: LibraryCall)
    ensures c in ResetPlan(fs, deleteArtificial) <==>
      exists i :: 0 <= i < |fs| && fs[i].spec == c.spec &&
        (if c.Remove? then RemovedOnReset(fs[i].modified, fs[i].artificial, deleteArtificial)
         else RedownloadedOnReset(fs[i].modified, fs[i].artificial, deleteArtificial))
  {
    if fs != [] {
      var init := fs[..|fs| - 1];
      ResetPlanCalls(init, deleteArtificial, c);
      forall i | 0 <= i < |init| ensures init[i] == fs[i] { }
    }
  }

  /** Every download is preceded, immediately, by the removal of the same lexicon. */
  lemma {:induction false} DownloadFollowsRemove(fs: seq<LexiconFacts>, deleteArtificial: bool, j: nat)
    requires j < |ResetPlan(fs, deleteArtificial)|
    requires ResetPlan(fs, deleteArtificial)[j].Download?
    ensures j > 0 && ResetPlan(fs, deleteArtificial)[j - 1] == Remove(ResetPlan(fs, deleteArtificial)[j].spec)
  {
    var init := fs[..|fs| - 1];
    var before := ResetPlan(init, deleteArtificial);
    if j < |before| {
      DownloadFollowsRemove(init, deleteArtificial, j);
    }
  }

  /** `get_wordnet_overview`'s line: "id:version", a tab, the label, then a
      Modified marker and an Artificial marker, each replaced by a bare tab
      when the flag is off. */
  function OverviewLine(spec: string, lexLabel: string, modified: bool, artificial: bool): (r: string)
    ensures spec + "\t" + lexLabel <= r
    ensures |r| >= |spec| + |lexLabel| + 3
  {
    spec + "\t" + lexLabel
      + (if modified then "\tModified" else "\t")
      + (if artificial then "\tArtificial" else "\t")
  }

  /** Reads the two flags back from the end of an overview line. */
  function ReadMarkers(line: string): (bool, bool) {
    var rest := if EndsWith(line, "\tArtificial") then line[..|line| - 11]
                else if line != [] then line[..|line| - 1] else [];
    (EndsWith(rest, "\tModified"), EndsWith(line, "\tArtificial"))
  }

  predicate EndsWith(s: string, t: string) {
    |t| <= |s| && s[|s| - |t|..] == t
  }

  /** The markers of an overview line tell the flags back, whatever the label. */
  lemma ReadMarkersOfOverviewLine(spec: string, lexLabel: string, modified: bool, artificial: bool)
    ensures ReadMarkers(OverviewLine(spec, lexLabel, modified, artificial)) == (modified, artificial)
  {
    var head := spec + "\t" + lexLabel;
    var m := if modified then "\tModified" else "\t";
    var a := if artificial then "\tArtificial" else "\t";
    var line := OverviewLine(spec, lexLabel, modified, artificial);
    assert line == (head + m) + a;
    assert line[|line| - |a|..] == a;
    if artificial {
      assert EndsWith(line, "\tArtificial");
      assert line[..|line| - 11] == head + m;
    } else {
      assert line[|line| - 1] == '\t';
      assert line[..|line| - 1] == head + m;
    }
    var rest := head + m;
    assert rest[|rest| - |m|..] == m;
    if !modified {
      assert rest[|rest| - 1] == '\t';
    }
  }
}
