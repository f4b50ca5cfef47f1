/** The Option type used wherever the importer treats a value as "present or absent":
    a CSV column that may be missing, a document field that may be unset, a lookup
    that may find nothing. */
module Wrappers {

  datatype Option<+T> = None | Some(value: T) {

    /** The value when present, the given default otherwise (Python's `d.get(k, default)`). */
    function GetOr(default: T): T {
      match this
      case Some(v) => v
      case None => default
    }
  }
}
