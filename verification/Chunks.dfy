/** Input that arrives in chunks, and what the hash functions say about it. */
module Chunks {

  type Byte = bv8

  datatype ErrorCode = OK | ERROR

  /** A pointer argument: null, or the bytes it points to. */
  datatype Input = Null | Bytes(data: seq<Byte>)

  function Concat(chunks: seq<seq<Byte>>): seq<Byte> {
    if chunks == [] then [] else Concat(chunks[..|chunks| - 1]) + chunks[|chunks| - 1]
  }
}
