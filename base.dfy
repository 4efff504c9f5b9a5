/** Small datatypes shared by every module of the model. */
module Base {

  /** A value that may be absent (Python's `None`). */
  datatype Option<+T> = None | Some(value: T)

  /** What a Python call ends with: a returned value, or an exception that nobody catches. */
  datatype Outcome<+T> = Return(value: T) | Raised

  /** An external command line, as the list handed to `subprocess.run`. */
  type Cmd = seq<string>

  /** How an external process ended: its binary was not found, or it exited with a status. */
  datatype Exit = NotFound | Exited(code: int)

  /** File contents. */
  type Bytes = seq<bv8>

  /** Concatenation of a list of byte chunks, in order. */
  function Concat(chunks: seq<Bytes>): (r: Bytes)
    ensures |r| == TotalLength(chunks)
  {
    if chunks == [] then [] else Concat(chunks[..|chunks| - 1]) + chunks[|chunks| - 1]
  }

  /** Sum of the lengths of a list of byte chunks. */
  function TotalLength(chunks: seq<Bytes>): nat
  {
    if chunks == [] then 0 else TotalLength(chunks[..|chunks| - 1]) + |chunks[|chunks| - 1]|
  }
}
