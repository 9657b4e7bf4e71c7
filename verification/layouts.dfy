/** Where in a datagram the numbers of its headers stand. */
module Layouts {
  import opened Outcomes
  import opened Wire
  import opened Codec
  import opened Messages
  import opened Reading
  import opened Pieces
  import opened Fragments
  import opened Splitting
  import opened Reassembly
  import opened Transport

  /** The header of a split packet. */
  const SPLIT_HEADER: Bytes := [254, 255, 255, 255]

  /** A fragment after that header: four bytes of message id, one of count, one of index, two of slice size; or, when
      the sign bit of the message id is set, four bytes of size and four of checksum instead of the slice size.  What
      follows is the content. */
  function ReadPart(tail: Bytes): Outcome<Datagram> {
    if |tail| < 8 then Broken
    else if tail[3] < 128 then Ok(Part(LongOf(tail[..4]), tail[4], Piece(tail[5], false, tail[8..])))
    else if |tail| < 14 then Broken
    else Ok(Part(LongOf(tail[..4]), tail[4], Piece(tail[5], true, tail[14..])))
  }

  /** Any datagram. */
  function ReadDatagram(packet: Bytes): Outcome<Datagram> {
    if NO_SPLIT_HEADER <= packet then Ok(Unsplit)
    else if SPLIT_HEADER <= packet then ReadPart(packet[4..])
    else Broken
  }

  // ---------------------------------------------------------------- reading

  /** The values of the first three fields. */
  function Heading(tail: Bytes): Record
    requires |tail| >= 6
  {
    map[]["message_id" := IntV(LongOf(tail[..4]))]["fragment_count" := IntV(tail[4])]["fragment_id" := IntV(tail[5])]
  }

  lemma HeadingRead(rest: seq<Field>, tail: Bytes)
    requires WellFormed(rest)
    ensures
      var fields := [LongField("message_id")] + ([ByteField("fragment_count")] + ([ByteField("fragment_id")] + rest));
      && WellFormed(fields)
      && Decode(fields, tail, map[]) == if |tail| < 6 then Broken else Decode(rest, tail[6..], Heading(tail))
  {
    hide *;
    ByteStep("fragment_id", rest, [], map[]);
    ByteStep("fragment_count", [ByteField("fragment_id")] + rest, [], map[]);
    LongStep("message_id", [ByteField("fragment_count")] + ([ByteField("fragment_id")] + rest), tail, map[]);
    if |tail| >= 4 {
      var acc: Record := map[]["message_id" := IntV(LongOf(tail[..4]))];
      ByteStep("fragment_count", [ByteField("fragment_id")] + rest, tail[4..], acc);
      if |tail| >= 5 {
        DropTwice(tail, 4, 1);
        ByteStep("fragment_id", rest, tail[5..], acc["fragment_count" := IntV(tail[4])]);
        if |tail| >= 6 {
          DropTwice(tail, 5, 1);
          HeadingIs(tail);
        }
      }
    }
  }

  lemma HeadingIs(tail: Bytes)
    requires |tail| >= 6
    ensures Heading(tail) ==
      map[]["message_id" := IntV(LongOf(tail[..4]))]["fragment_count" := IntV(tail[4])]["fragment_id" := IntV(tail[5])]
  {
  }

  lemma PlainRead(tail: Bytes)
    ensures Decode(FragmentSchema(), tail, map[]) ==
      if |tail| < 8 then Broken else Ok((Heading(tail)["mtu" := IntV(ShortOf(tail[6..8]))], tail[8..]))
  {
    PlainFields();
    hide *;
    Nothing([], map[]);
    ShortStep("mtu", [], [], map[]);
    HeadingRead([ShortField("mtu")] + [], tail);
    if |tail| >= 6 {
      ShortStep("mtu", [], tail[6..], Heading(tail));
      if |tail| >= 8 {
        DropTwice(tail, 6, 2);
        assert tail[6..][..2] == tail[6..8];
        Nothing(tail[8..], Heading(tail)["mtu" := IntV(ShortOf(tail[6..8]))]);
      }
    }
  }

  lemma CompressedRead(tail: Bytes)
    ensures Decode(CompressedFragmentSchema(), tail, map[]) ==
      if |tail| < 14 then Broken
      else
        Ok((Heading(tail)["size" := IntV(LongOf(tail[6..10]))]["crc" := IntV(LongOf(tail[10..14]))], tail[14..]))
  {
    CompressedFields();
    hide *;
    Nothing([], map[]);
    LongStep("crc", [], [], map[]);
    LongStep("size", [LongField("crc")] + [], [], map[]);
    HeadingRead([LongField("size")] + ([LongField("crc")] + []), tail);
    if |tail| >= 6 {
      LongStep("size", [LongField("crc")] + [], tail[6..], Heading(tail));
      if |tail| >= 10 {
        DropTwice(tail, 6, 4);
        assert tail[6..][..4] == tail[6..10];
        var acc := Heading(tail)["size" := IntV(LongOf(tail[6..10]))];
        LongStep("crc", [], tail[10..], acc);
        if |tail| >= 14 {
          DropTwice(tail, 10, 4);
          assert tail[10..][..4] == tail[10..14];
          Nothing(tail[14..], acc["crc" := IntV(LongOf(tail[10..14]))]);
        }
      }
    }
  }

  lemma Nothing(buf: Bytes, acc: Record)
    ensures WellFormed([]) && Decode([], buf, acc) == Ok((acc, buf))
  {
  }

  lemma PlainFields()
    ensures FragmentSchema() ==
      [LongField("message_id")] + ([ByteField("fragment_count")] + ([ByteField("fragment_id")] +
        ([ShortField("mtu")] + [])))
  {
  }

  lemma CompressedFields()
    ensures CompressedFragmentSchema() ==
      [LongField("message_id")] + ([ByteField("fragment_count")] + ([ByteField("fragment_id")] +
        ([LongField("size")] + ([LongField("crc")] + []))))
  {
  }

  /** The numbers of a decoded fragment are those of its first three fields. */
  lemma PartIs(tail: Bytes, x: Value, y: Value, compressed: bool, body: Bytes)
    requires |tail| >= 6
    ensures
      var part := Part(LongOf(tail[..4]), tail[4], Piece(tail[5], compressed, body));
      && PartOf(Heading(tail)["mtu" := x], compressed, body) == part
      && PartOf(Heading(tail)["size" := x]["crc" := y], compressed, body) == part
    ensures Num(Heading(tail)["mtu" := x], "message_id") == LongOf(tail[..4])
  {
    hide LongOf;
  }

  lemma SignIsLast(id: Bytes)
    requires |id| == 4
    ensures IsCompressed(LongOf(id)) <==> id[3] >= 128
  {
    SignBit(LongOf(id));
    hide IsCompressed;
  }

  /** How every fragment is read from its bytes. */
  lemma PartLayout(tail: Bytes)
    ensures ParseFragment(tail) == ReadPart(tail)
  {
    hide Decode, FragmentSchema, CompressedFragmentSchema, Heading, PartOf, Num, LongOf, ShortOf, IsCompressed;
    PlainRead(tail);
    if |tail| >= 8 {
      SignIsLast(tail[..4]);
      var x := IntV(ShortOf(tail[6..8]));
      PartIs(tail, x, x, false, tail[8..]);
      if tail[3] >= 128 {
        CompressedRead(tail);
        if |tail| >= 14 {
          PartIs(tail, IntV(LongOf(tail[6..10])), IntV(LongOf(tail[10..14])), true, tail[14..]);
        }
      }
    }
  }

  /** A header is told by its bytes. */
  lemma HeaderIs(b: Bytes)
    requires |b| == 4
    ensures Unpack(IntFormat(4, true, false), b) == NO_SPLIT <==> b == NO_SPLIT_HEADER
    ensures Unpack(IntFormat(4, true, false), b) == SPLIT <==> b == SPLIT_HEADER
  {
    LongIs(b);
    hide Unpack;
    if LongOf(b) == NO_SPLIT {
      assert b[0] == 255 && b[1] == 255 && b[2] == 255 && b[3] == 255;
    } else if LongOf(b) == SPLIT {
      assert b[0] == 254 && b[1] == 255 && b[2] == 255 && b[3] == 255;
    }
  }

  /** How every datagram is read. */
  lemma DatagramLayout(packet: Bytes)
    ensures Parse(packet) == ReadDatagram(packet)
  {
    HeaderValue(packet);
    if |packet| >= 4 {
      HeaderIs(packet[..4]);
      PartLayout(packet[4..]);
      assert NO_SPLIT_HEADER <= packet <==> packet[..4] == NO_SPLIT_HEADER;
      assert SPLIT_HEADER <= packet <==> packet[..4] == SPLIT_HEADER;
    }
    hide Decode, Unpack, ParseFragment, ReadPart, HeaderSchema;
  }

  // ---------------------------------------------------------------- writing

  /** The header of a fragment that is sent: twelve bytes, with each number where it is read. */
  lemma FragmentHeaderLayout(messageId: int, count: int, id: int, mtu: int)
    requires FragmentFits(messageId, count, id, mtu)
    ensures FragmentHeader(messageId, count, id, mtu).Ok?
    ensures
      var b := FragmentHeader(messageId, count, id, mtu).value;
      && |b| == 12 && b[..4] == SPLIT_HEADER
      && LongOf(b[4..8]) == messageId && b[8] == count && b[9] == id && ShortOf(b[10..12]) == mtu
  {
    var values := FragmentValues(messageId, count, id, mtu);
    var h, b := HeaderBytes(SPLIT), Encode(FragmentSchema(), values, map[]).0;
    assert h.Ok? && b.Ok? ==> FragmentHeader(messageId, count, id, mtu) == Ok(h.value + b.value);
    hide *;
    FragmentHeaderEncodes(messageId, count, id, mtu);
    FragmentRoundTrip(messageId, count, id, mtu, []);
    HeaderEncodes(SPLIT);
    HeaderIs(h.value);
    PlainRead(b.value);
    Alone(b.value);
    WrittenValues(b.value, messageId, count, id, mtu);
    Behind(h.value, b.value);
  }

  lemma Alone(b: Bytes)
    ensures b + [] == b && (|b| >= 8 && b[8..] == [] ==> |b| == 8)
  {
  }

  lemma Behind(h: Bytes, b: Bytes)
    requires |h| == 4 && |b| == 8
    ensures
      var all := h + b;
      |all| == 12 && all[..4] == h && all[4..8] == b[..4] && all[8] == b[4] && all[9] == b[5] && all[10..12] == b[6..8]
  {
  }

  lemma WrittenValues(b: Bytes, messageId: int, count: int, id: int, mtu: int)
    requires |b| == 8 && Heading(b)["mtu" := IntV(ShortOf(b[6..8]))] == FragmentValues(messageId, count, id, mtu)
    ensures LongOf(b[..4]) == messageId && b[4] == count && b[5] == id && ShortOf(b[6..8]) == mtu
  {
    var values := FragmentValues(messageId, count, id, mtu);
    assert values["message_id"] == IntV(LongOf(b[..4])) && values["fragment_count"] == IntV(b[4]);
    assert values["fragment_id"] == IntV(b[5]) && values["mtu"] == IntV(ShortOf(b[6..8]));
    hide LongOf, ShortOf;
  }

  /** Every datagram of a long packet: its header and its slice. */
  lemma SentLayout(packet: Bytes, messageId: int, splitSize: int, i: nat)
    requires |packet| > splitSize > 0 && Sendable(|packet|, splitSize) && 1 <= messageId <= MAX_SIZE_32
    requires i < CeilDiv(|packet|, splitSize)
    ensures |Datagrams(packet, messageId, splitSize)| == CeilDiv(|packet|, splitSize)
    ensures
      var b := Datagrams(packet, messageId, splitSize)[i];
      && |b| >= 12 && b[..4] == SPLIT_HEADER && LongOf(b[4..8]) == messageId && b[8] == CeilDiv(|packet|, splitSize)
      && b[9] == i && ShortOf(b[10..12]) == splitSize - 12 && b[12..] == Slice(packet, splitSize - 12, i)
  {
    assert OVERHEAD == 12;
    hide *;
    SendPlan(packet, messageId, splitSize);
    var count, mtu := CeilDiv(|packet|, splitSize), splitSize - OVERHEAD;
    FitsIff(messageId, count, i, mtu);
    FragmentAt(packet, messageId, count, mtu, count, i);
    FragmentHeaderLayout(messageId, count, i, mtu);
    HeaderFirst(FragmentHeader(messageId, count, i, mtu).value, Slice(packet, mtu, i));
  }

  lemma HeaderFirst(h: Bytes, content: Bytes)
    requires |h| == 12
    ensures
      var b := h + content;
      && |b| >= 12 && b[..4] == h[..4] && b[4..8] == h[4..8] && b[8] == h[8] && b[9] == h[9] && b[10..12] == h[10..12]
      && b[12..] == content
  {
  }

  // ---------------------------------------------------------------- fragments of game servers

  /** A fragment that is not compressed, as any server writes it. */
  lemma PlainFragment(id: Bytes, count: Byte, index: Byte, mtu: Bytes, content: Bytes)
    requires |id| == 4 && |mtu| == 2 && id[3] < 128
    ensures Classify(SPLIT_HEADER + (id + ([count] + ([index] + (mtu + content))))) ==
      Fragment(LongOf(id), count, Piece(index, false, content))
  {
    var tail := id + ([count] + ([index] + (mtu + content)));
    var packet := SPLIT_HEADER + tail;
    assert packet[0] == 254 && packet[..4] == SPLIT_HEADER && packet[4..] == tail;
    assert tail[..4] == id && tail[4] == count && tail[5] == index && tail[8..] == content;
    hide Parse, LongOf;
    DatagramLayout(packet);
  }

  /** A compressed one, with the size and the checksum of the whole content before its own. */
  lemma CompressedFragment(id: Bytes, count: Byte, index: Byte, size: Bytes, crc: Bytes, content: Bytes)
    requires |id| == 4 && |size| == 4 && |crc| == 4 && id[3] >= 128
    ensures Classify(SPLIT_HEADER + (id + ([count] + ([index] + (size + (crc + content)))))) ==
      Fragment(LongOf(id), count, Piece(index, true, content))
  {
    var tail := id + ([count] + ([index] + (size + (crc + content))));
    var packet := SPLIT_HEADER + tail;
    assert packet[0] == 254 && packet[..4] == SPLIT_HEADER && packet[4..] == tail;
    assert tail[..4] == id && tail[4] == count && tail[5] == index && tail[14..] == content;
    hide Parse, LongOf;
    DatagramLayout(packet);
  }
}
