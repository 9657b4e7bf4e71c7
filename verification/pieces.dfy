/** What the receiver keeps of a fragment. */
module Pieces {
  import opened Wire

  const MAX_FRAGMENTS_PER_PACKET: nat := 100

  /** `body` is the fragment's `raw_tail`. */
  datatype Piece = Piece(id: int, compressed: bool, body: Bytes)

  function Join(parts: seq<Bytes>): Bytes {
    if parts == [] then [] else parts[0] + Join(parts[1..])
  }
}
