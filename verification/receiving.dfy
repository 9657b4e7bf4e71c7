/** recv_packet of the streams, the server and the client. */
module Receiving {
  import opened Outcomes
  import opened Wire
  import opened Codec
  import opened Messages
  import opened Fragments
  import opened Layouts
  import opened Reassembly
  import opened Receiver
  import opened Transport
  import opened Dispatch

  /** How SourceDatagramStream.recv_packet ends: data, BrokenPacketError, another exception, or not at all. */
  datatype Arrival = Arrived(data: Bytes) | BrokenPacket(raw: Bytes) | Exception | StillWaiting

  /** Reads datagrams until one of them completes something; also the table after it and how many were read. */
  function Receive(t: Table, packets: seq<Bytes>, decompress: Decompress): (Table, Arrival, nat)
    decreases |packets|
  {
    if packets == [] then (t, StillWaiting, 0) else
    var (t', delivery) := Handle(t, Classify(packets[0]), decompress);
    match delivery
    case Whole(data) => (t', Arrived(data), 1)
    case Malformed => (t', BrokenPacket(packets[0]), 1)
    case Corrupt => (t', Exception, 1)
    case Pending => var (t'', arrival, used) := Receive(t', packets[1..], decompress); (t'', arrival, used + 1)
  }

  /** After `used` datagrams that completed nothing the rest is read from the table `t`. */
  ghost predicate Resumed(t0: Table, packets: seq<Bytes>, used: nat, t: Table, decompress: Decompress) {
    used <= |packets| &&
    var (t', arrival, more) := Receive(t, packets[used..], decompress);
    Receive(t0, packets, decompress) == (t', arrival, used + more)
  }

  lemma ResumeStart(t: Table, packets: seq<Bytes>, decompress: Decompress)
    ensures Resumed(t, packets, 0, t, decompress)
  {
    assert packets[0..] == packets;
    hide Receive;
  }

  lemma ResumeStep(t0: Table, packets: seq<Bytes>, used: nat, t: Table, decompress: Decompress)
    requires Resumed(t0, packets, used, t, decompress)
    ensures used == |packets| ==> Receive(t0, packets, decompress) == (t, StillWaiting, used)
    ensures used < |packets| ==>
      var (t', delivery) := Handle(t, Classify(packets[used]), decompress);
      match delivery
      case Whole(data) => Receive(t0, packets, decompress) == (t', Arrived(data), used + 1)
      case Malformed => Receive(t0, packets, decompress) == (t', BrokenPacket(packets[used]), used + 1)
      case Corrupt => Receive(t0, packets, decompress) == (t', Exception, used + 1)
      case Pending => Resumed(t0, packets, used + 1, t', decompress)
  {
    hide Handle, Classify;
    if used < |packets| {
      assert packets[used..][0] == packets[used] && packets[used..][1..] == packets[used + 1..];
    }
  }

  /** SourceDatagramStream.recv_packet */
  method RecvPacket(stream: SourceDatagramStream, packets: seq<Bytes>) returns (r: Arrival, used: nat)
    requires stream.Valid()
    modifies stream`unbounded, stream.fragments, stream.fragments.items.Values
    ensures stream.Valid()
    ensures (stream.View(), r, used) == Receive(old(stream.View()), packets, stream.decompress)
  {
    hide *;
    used := 0;
    ResumeStart(stream.View(), packets, stream.decompress);
    while used < |packets|
      invariant used <= |packets| && stream.Valid()
      invariant Resumed(old(stream.View()), packets, used, stream.View(), stream.decompress)
      invariant fresh(stream.fragments.items.Values - old(stream.fragments.items.Values))
    {
      ResumeStep(old(stream.View()), packets, used, stream.View(), stream.decompress);
      var delivery := HandleFragments(stream, packets[used]);
      used := used + 1;
      match delivery {
        case Whole(data) => return Arrived(data), used;
        case Malformed => return BrokenPacket(packets[used - 1]), used;
        case Corrupt => return Exception, used;
        case Pending =>
      }
    }
    ResumeStep(old(stream.View()), packets, used, stream.View(), stream.decompress);
    return StillWaiting, used;
  }

  // ---------------------------------------------------------------- messages

  /** What recv_packet of the server or the client gives: the message (None when nothing matched or the datagram
      was broken) and its bytes, an exception, or nothing yet. */
  datatype Received = Got(message: Option<Message>, data: Bytes) | Raised | NoMessage

  function Decoded(arrival: Arrival, classes: seq<MessageClass>): Received {
    match arrival
    case Arrived(data) => (match DecodePacket(data, classes) case Ok(message) => Got(message, data) case _ => Raised)
    case BrokenPacket(raw) => Got(None, raw)
    case Exception => Raised
    case StillWaiting => NoMessage
  }

  /** recv_packet of SourceDatagramServer and of SourceDatagramClient, which differ in their classes. */
  method RecvMessage(
      stream: SourceDatagramStream, packets: seq<Bytes>, classes: seq<MessageClass>) returns (r: Received, used: nat)
    requires stream.Valid()
    modifies stream`unbounded, stream.fragments, stream.fragments.items.Values
    ensures stream.Valid()
    ensures
      var (t, arrival, n) := Receive(old(stream.View()), packets, stream.decompress);
      stream.View() == t && r == Decoded(arrival, classes) && used == n
  {
    hide Receive, DecodePacket;
    var arrival;
    arrival, used := RecvPacket(stream, packets);
    match arrival {
      case Arrived(data) =>
        var message := DecodeClasses(data, classes);
        r := if message.Ok? then Got(message.value, data) else Raised;
      case BrokenPacket(raw) => r := Got(None, raw);
      case Exception => r := Raised;
      case StillWaiting => r := NoMessage;
    }
  }

  // ---------------------------------------------------------------- what is raised and what is reported

  /** A datagram with neither header, or with a fragment header that is cut off, is reported with its raw bytes and no
      message, and leaves the table as it was. */
  lemma UnreadableIsReported(t: Table, packets: seq<Bytes>, classes: seq<MessageClass>, decompress: Decompress)
    requires packets != [] && ReadDatagram(packets[0]).Broken?
    ensures Receive(t, packets, decompress) == (t, BrokenPacket(packets[0]), 1)
    ensures Decoded(Receive(t, packets, decompress).1, classes) == Got(None, packets[0])
  {
    DatagramLayout(packets[0]);
    hide ReadDatagram, Parse, DecodePacket;
  }

  /** Whole data are decoded behind either header, and without one recv_packet raises. */
  lemma WholeIsDecoded(data: Bytes, classes: seq<MessageClass>)
    ensures Decoded(Arrived(data), classes) ==
      if NO_SPLIT_HEADER <= data || SPLIT_HEADER <= data then
        match FirstMatch(classes, data[4..]) case Ok(message) => Got(message, data) case _ => Raised
      else Raised
  {
    HeaderValue(data);
    if |data| >= 4 {
      HeaderIs(data[..4]);
      assert NO_SPLIT_HEADER <= data <==> data[..4] == NO_SPLIT_HEADER;
      assert SPLIT_HEADER <= data <==> data[..4] == SPLIT_HEADER;
    }
    hide Decode, FirstMatch, HeaderSchema, Unpack;
  }

  /** A packet that is completed with contents that do not decompress raises. */
  lemma CorruptRaises(t: Table, packets: seq<Bytes>, classes: seq<MessageClass>, decompress: Decompress)
    requires packets != [] && Handle(t, Classify(packets[0]), decompress).1 == Corrupt
    ensures Decoded(Receive(t, packets, decompress).1, classes) == Raised
  {
    hide Handle, Classify, DecodePacket;
  }
}
