/** Failure-carrying datatypes shared by the whole model. Every Python exception the
    modelled code can raise becomes one `Error` constructor. */
module Wrappers {

  datatype Option<+T> = None | Some(value: T)

  /** The ways an operation can fail; each stands for an exception of the source. */
  datatype Error =
    | ParsingError        // a KVLM header line that does not split at a space
    | IndexOutOfRange     // a Python list or string index past the end
    | KeyNotFound         // a missing dict key (KeyError)
    | NotAFolder          // a dict operation applied to a stored leaf (TypeError)
    | NotBytes            // a bytes operation applied to a stored folder
    | EmptyPath           // `path[-1]` on a path with no component
    | BadMode             // a tree entry whose mode is not 5 or 6 bytes long
    | MissingNul          // no NUL byte where the format needs one
    | Truncated           // a fixed-width field runs past the end of the data
    | Overflow            // `int.to_bytes` on a value that does not fit
    | BadHex              // `int(s, 16)` on a string that is not hexadecimal
    | BadSignature        // index signature other than "DIRC"
    | BadVersion          // index version other than 2
    | BadReserved         // non-zero reserved bits in front of an index entry's mode
    | BadModeType         // index mode type outside {0b1000, 0b1010, 0b1110}
    | ExtendedFlag        // index entry with the extended flag set
    | NameNotTerminated   // a short index name not followed by NUL
    | BadEnvelope         // an object envelope without its space or NUL separator
    | BadSize             // an object envelope whose size field is not decimal
    | UnknownFormat       // an object type tag outside blob/tree/commit/tag
    | ObjectNotFound      // no stored object under a digest
    | NoHashes            // a name that matches no object
    | AmbiguousName       // a name that matches several objects
    | RecursionLimit      // Python's recursion limit, reached on a reference cycle
    | NotText             // a string operation applied to None

  datatype Result<+T> = Ok(value: T) | Err(error: Error) {
    predicate IsFailure() {
      Err?
    }

    function PropagateFailure<U>(): Result<U>
      requires Err?
    {
      Err(error)
    }

    function Extract(): T
      requires Ok?
    {
      value
    }
  }
}
