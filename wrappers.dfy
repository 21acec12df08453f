/** Option and Result, the shapes every module uses for "maybe absent" and "may throw". */
module Wrappers {

  datatype Option<+T> = None | Some(value: T) {
    function GetOr(default: T): T {
      match this
      case Some(v) => v
      case None => default
    }
  }

  /** The errors the editor raises (each one a thrown Error in the original). */
  datatype Error =
    | NotFound(what: string)        // address segment absent: file index, chunk occurrence, model entry, LOD
    | DecodeError(what: string)     // an external codec rejected the bytes
    | SliceOverflow                 // replacement longer than a slice window
    | OutOfOrder                    // patch list not ascending
    | NoGamefile                    // edit requested before an archive is loaded
    | EditConflict                  // compare-and-swap failed 20 times
    | Unsupported                   // merging a multi-byte range into a patch list
    | CallbackError(what: string)   // an edit callback threw

  datatype Result<+T> = Ok(value: T) | Err(error: Error)
}
