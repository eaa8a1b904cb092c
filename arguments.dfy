/** The argument checks of the editors' constructors and of the syntactic
    behaviour deletion. */
module Arguments {
  import opened Wrappers

  /** Python truthiness of an optional row id: `None` and `0` are false. */
  predicate Truthy(o: Option<RowId>) {
    o.Some? && o.value != 0
  }

  /** How many of the three row ids a caller gave (truthy ones). */
  function Given(lexicon: Option<RowId>, entry: Option<RowId>, synset: Option<RowId>): nat {
    (if Truthy(lexicon) then 1 else 0) + (if Truthy(entry) then 1 else 0) + (if Truthy(synset) then 1 else 0)
  }

  datatype SenseSource = FromSense | FromRowIds

  /** `SenseEditor.__init__`'s guard, written as the source's expression:
      a sense and none of the row ids, or no sense and all three. */
  function SenseEditorMode(hasSense: bool, lexicon: Option<RowId>, entry: Option<RowId>, synset: Option<RowId>): (r: Result<SenseSource>)
    ensures r.Ok? <==> Given(lexicon, entry, synset) == (if hasSense then 0 else 3)
    ensures r.Ok? ==> (r.value == FromSense <==> hasSense)
    ensures r.Err? ==> r.error == AttributeError
  {
    if !((hasSense && !(Truthy(lexicon) || Truthy(entry) || Truthy(synset)))
         || (!hasSense && (Truthy(lexicon) && Truthy(entry) && Truthy(synset))))
    then Err(AttributeError)
    else if hasSense then Ok(FromSense)
    else Ok(FromRowIds)
  }

  /** Which rows `LexiconEditor.delete_syntactic_behaviour` deletes. */
  datatype BehaviourKey = ByRowId(rowid: int) | ByIdAndFrame(id: string, frame: string)

  function Present<T>(o: Option<T>): nat { if o.Some? then 1 else 0 }

  /** The guard of `delete_syntactic_behaviour` (`is None` tests): a row id
      alone, or an id and a frame without a row id. */
  function BehaviourDeletion(rowid: Option<int>, id: Option<string>, frame: Option<string>): (r: Result<BehaviourKey>)
    ensures r.Ok? <==> Present(rowid) + Present(id) + Present(frame) == (if rowid.Some? then 1 else 2)
    ensures r.Ok? ==> (r.value.ByRowId? <==> rowid.Some?)
    ensures r.Ok? && r.value.ByRowId? ==> r.value.rowid == rowid.value
    ensures r.Ok? && r.value.ByIdAndFrame? ==> Some(r.value.id) == id && Some(r.value.frame) == frame
    ensures r.Err? ==> r.error == AttributeError
  {
    if (rowid.None? && (id.None? || frame.None?)) || (rowid.Some? && (id.Some? || frame.Some?)) then
      Err(AttributeError)
    else if rowid.Some? then Ok(ByRowId(rowid.value))
    else Ok(ByIdAndFrame(id.value, frame.value))
  }
}
