/** Option and Result values for lookups that may find nothing and for
    operations that raise in the editor. */
module Wrappers {

  /** A row identifier of the relational store. */
  type RowId = nat

  datatype Option<+T> = None | Some(value: T) {
    function GetOr(default: T): T {
      match this
      case Some(v) => v
      case None => default
    }
  }

  /** The Python exceptions the editor lets escape. IntegrityError stands
      for an insert that the store refuses because a referenced row
      (lexicon, entry, synset) is missing. */
  datatype Error = AttributeError | TypeError | IndexError | IntegrityError

  datatype Result<+T> = Ok(value: T) | Err(error: Error)
}
