/** SourceDatagramStream on datagrams of bytes: what goes in and what comes out. */
module Transport {
  import opened Wire
  import opened Pieces
  import opened Fragments
  import opened Splitting
  import opened Reassembly
  import opened ReassemblyRuns
  import opened Receiver

  /** A datagram as the receiver sees it. */
  function Classify(packet: Bytes): Incoming {
    match Parse(packet)
    case Ok(Unsplit) => Plain(packet)
    case Ok(Part(messageId, count, piece)) => ParseRanges(packet); Fragment(messageId, count, piece)
    case Broken => Bad
    case Crash => Bad
  }

  function Incomings(packets: seq<Bytes>): (r: seq<Incoming>)
    ensures |r| == |packets| && forall i :: 0 <= i < |packets| ==> r[i] == Classify(packets[i])
  {
    seq(|packets|, i requires 0 <= i < |packets| => Classify(packets[i]))
  }

  /** handle_fragments. */
  method HandleFragments(stream: SourceDatagramStream, packet: Bytes) returns (r: Delivery)
    requires stream.Valid()
    modifies stream`unbounded, stream.fragments, stream.fragments.items.Values
    ensures stream.Valid()
    ensures (stream.View(), r) == Handle(old(stream.View()), Classify(packet), stream.decompress)
    ensures fresh(stream.fragments.items.Values - old(stream.fragments.items.Values))
  {
    r := stream.HandleIncoming(Classify(packet));
  }

  // ---------------------------------------------------------------- reassembly inverts splitting, on bytes

  lemma ClassifyDatagram(packet: Bytes, m: int, s: int, i: nat)
    requires OVERHEAD < s < |packet| && Sendable(|packet|, s) && 1 <= m <= MAX_SIZE_32 && i < CeilDiv(|packet|, s)
    ensures |Datagrams(packet, m, s)| == CeilDiv(|packet|, s)
    ensures Classify(Datagrams(packet, m, s)[i]) ==
      Fragment(m, CeilDiv(|packet|, s), Piece(i, false, Slice(packet, s - OVERHEAD, i)))
  {
    DatagramPart(packet, m, s, i);
    hide Parse, Datagrams, Slice, CeilDiv;
  }

  /** What is sent for a long packet is read as the fragments of its slices. */
  lemma DatagramsAreFragments(packet: Bytes, m: int, s: int)
    requires OVERHEAD < s < |packet| && Sendable(|packet|, s) && 1 <= m <= MAX_SIZE_32
    ensures CeilDiv(|packet|, s) >= 1
    ensures Incomings(Datagrams(packet, m, s)) ==
      FragmentsOf(m, Uncompressed(Slices(packet, s - OVERHEAD, CeilDiv(|packet|, s))))
  {
    CountSign(|packet|, s);
    hide *;
    var count := CeilDiv(|packet|, s);
    ClassifyDatagram(packet, m, s, 0);
    var parts := Uncompressed(Slices(packet, s - OVERHEAD, count));
    forall i: nat | i < count ensures Incomings(Datagrams(packet, m, s))[i] == FragmentsOf(m, parts)[i] {
      ClassifyDatagram(packet, m, s, i);
    }
  }

  /** Every packet of lossless size is delivered exactly, when its last missing fragment arrives and not before:
      for every order of its datagrams, with duplicates, and with traffic of fewer than 1024 other message ids
      in between. */
  lemma ReassemblyInvertsSplitting(
      t: Table, packet: Bytes, m: int, s: int, arrivals: seq<Bytes>, missing: nat, decompress: Decompress)
    requires ValidTable(t) && m !in t.items && 1 <= m <= MAX_SIZE_32
    requires OVERHEAD < s < |packet| && Sendable(|packet|, s) && Lossless(|packet|, s)
    requires CeilDiv(|packet|, s) <= MAX_FRAGMENTS_PER_PACKET
    requires Shuffled(Incomings(arrivals), m, Incomings(Datagrams(packet, m, s)), missing)
    ensures DeliversLast(Deliveries(t, Incomings(arrivals), decompress), Incomings(arrivals), m, Whole(packet))
    ensures m !in After(t, Incomings(arrivals), decompress).items
  {
    LosslessIff(packet, s);
    hide *;
    DatagramsAreFragments(packet, m, s);
    var slices := Slices(packet, s - OVERHEAD, CeilDiv(|packet|, s));
    UncompressedPacket(slices, decompress);
    ShuffledCollects(t, Incomings(arrivals), m, Uncompressed(slices), missing, decompress);
  }
}
