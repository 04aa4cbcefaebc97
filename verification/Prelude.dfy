/** Types shared by every module. */
module Prelude {
  datatype Option<+T> = None | Some(value: T) {
    /** The value as a sequence of at most one element. */
    function ToSeq(): seq<T> {
      if Some? then [value] else []
    }
  }

  /** One byte of a stream or of guest memory. */
  type byte = b: int | 0 <= b < 256

  function Min(a: nat, b: nat): nat {
    if a < b then a else b
  }

  /** Concatenation of a sequence of sequences, in order. */
  function Flatten<T>(parts: seq<seq<T>>): seq<T> {
    if parts == [] then [] else parts[0] + Flatten(parts[1..])
  }
}
