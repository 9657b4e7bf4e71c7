/** The packet header and the fragment header: how a datagram is told apart, and what `send_packet` puts in
    front of each slice. */
module Fragments {
  import opened Outcomes
  import opened Wire
  import opened Codec
  import opened CodecLaws
  import opened Messages
  import opened Pieces

  datatype Datagram = Unsplit | Part(messageId: int, count: int, piece: Piece)

  /** Bit 31 of the two's complement form. */
  predicate IsCompressed(messageId: int) {
    (messageId % 0x1_0000_0000) / 0x8000_0000 == 1
  }

  /** The reading half of `handle_fragments`: decode the header and, for a split packet, the fragment. */
  function Parse(packet: Bytes): Outcome<Datagram> {
    match Decode(HeaderSchema(), packet, map[])
    case Ok((header, tail)) => if Num(header, "split") != SPLIT then Ok(Unsplit) else ParseFragment(tail)
    case Broken => Broken
    case Crash => Crash
  }

  function ParseFragment(tail: Bytes): Outcome<Datagram> {
    match Decode(FragmentSchema(), tail, map[])
    case Ok((fragment, body)) =>
      if !IsCompressed(Num(fragment, "message_id")) then Ok(PartOf(fragment, false, body)) else
      (match Decode(CompressedFragmentSchema(), tail, map[])
       case Ok((compressed, body')) => Ok(PartOf(compressed, true, body'))
       case Broken => Broken
       case Crash => Crash)
    case Broken => Broken
    case Crash => Crash
  }

  function PartOf(fragment: Record, compressed: bool, body: Bytes): Datagram {
    Part(Num(fragment, "message_id"), Num(fragment, "fragment_count"),
      Piece(Num(fragment, "fragment_id"), compressed, body))
  }

  // ---------------------------------------------------------------- what can be parsed

  /** Schemas of plain numbers. */
  predicate Numeric(fields: seq<Field>) {
    |fields| > 0 ==> fields[0].IntField? && fields[0].kind.Number? && Numeric(fields[1..])
  }

  predicate HasNumber(values: Record, f: Field)
    requires WellFormedField(f)
  {
    f.IntField? && f.name in values && values[f.name].IntV? && InRange(f.format, values[f.name].i)
  }

  predicate HasNumbers(values: Record, fields: seq<Field>)
    requires WellFormed(fields)
  {
    |fields| > 0 ==> HasNumber(values, fields[0]) && HasNumbers(values, fields[1..])
  }

  /** Decoding a schema of numbers can only fail for want of bytes, and gives numbers in the fields' ranges. */
  lemma {:induction false} NumericDecode(fields: seq<Field>, buf: Bytes, acc: Record, seen: set<string>)
    requires WellFormed(fields) && Numeric(fields) && Unambiguous(fields, seen)
    ensures !Decode(fields, buf, acc).Crash?
    ensures Decode(fields, buf, acc).Ok? ==> HasNumbers(Decode(fields, buf, acc).value.0, fields)
  {
    if |fields| > 0 && DecodeField(fields[0], buf, acc).Ok? {
      var (v, next) := DecodeField(fields[0], buf, acc).value;
      var acc1 := acc[fields[0].name := v];
      NumericDecode(fields[1..], next, acc1, seen + {fields[0].name});
      if Decode(fields, buf, acc).Ok? {
        DecodeKeeps(fields[1..], next, acc1, seen + {fields[0].name});
      }
    }
  }

  lemma LongRange(v: int)
    ensures InRange(IntFormat(4, true, false), v) <==> -0x8000_0000 <= v < 0x8000_0000
  {
    assert Pow256(1) == 256 && Pow256(2) == 0x1_0000 && Pow256(3) == 0x100_0000;
    assert Half(4) == 0x8000_0000;
  }

  lemma HeaderValue(packet: Bytes)
    ensures |packet| < 4 ==> Decode(HeaderSchema(), packet, map[]).Broken?
    ensures |packet| >= 4 ==>
      var v := Unpack(IntFormat(4, true, false), packet[..4]);
      Decode(HeaderSchema(), packet, map[]) ==
        if v == SPLIT || v == NO_SPLIT then Ok((map["split" := IntV(v)], packet[4..])) else Broken
  {
    DecodeCons(HeaderSchema()[0], [], packet, map[]);
    assert HeaderSchema() == [HeaderSchema()[0]] + [];
  }

  /** A way to see `Numeric`, `Unambiguous` and `Closed` without unrolling them. */
  lemma {:induction false} Numbered(fields: seq<Field>, seen: set<string>, counts: set<string>)
    requires forall i :: 0 <= i < |fields| ==> fields[i].IntField? && fields[i].kind.Number? && fields[i].name !in seen
    requires forall i, j :: 0 <= i < j < |fields| ==> fields[i].name != fields[j].name
    ensures Numeric(fields) && Unambiguous(fields, seen) && Closed(fields, seen, counts)
  {
    if |fields| > 0 {
      Numbered(fields[1..], seen + {fields[0].name}, counts + CountName(fields[0]));
    }
  }

  lemma {:induction false} HasNumberAt(values: Record, fields: seq<Field>, i: nat)
    requires WellFormed(fields) && HasNumbers(values, fields) && i < |fields|
    ensures WellFormedField(fields[i]) && HasNumber(values, fields[i])
  {
    if i > 0 {
      HasNumberAt(values, fields[1..], i - 1);
    }
  }

  lemma FragmentRanges(fields: seq<Field>, tail: Bytes)
    requires fields == FragmentSchema() || fields == CompressedFragmentSchema()
    ensures !Decode(fields, tail, map[]).Crash?
    ensures Decode(fields, tail, map[]).Ok? ==>
      var values := Decode(fields, tail, map[]).value.0;
      && -0x8000_0000 <= Num(values, "message_id") < 0x8000_0000
      && 0 <= Num(values, "fragment_count") < 256
      && 0 <= Num(values, "fragment_id") < 256
  {
    Numbered(fields, {}, {});
    NumericDecode(fields, tail, map[], {});
    if Decode(fields, tail, map[]).Ok? {
      hide Decode, HasNumbers, Numeric, Unambiguous, Closed, WellFormed;
      var values := Decode(fields, tail, map[]).value.0;
      HasNumberAt(values, fields, 0);
      HasNumberAt(values, fields, 1);
      HasNumberAt(values, fields, 2);
      LongRange(Num(values, "message_id"));
      assert Pow256(0) == 1 && Pow256(1) == 256;
    }
  }

  /** A message id that is decoded first is the one in the first four bytes. */
  lemma MessageIdFirst(rest: seq<Field>, tail: Bytes)
    requires WellFormed(rest) && Unambiguous(rest, {"message_id"})
    ensures WellFormed([LongField("message_id")] + rest)
    ensures var r := Decode([LongField("message_id")] + rest, tail, map[]);
      r.Ok? ==> |tail| >= 4 && Num(r.value.0, "message_id") == Unpack(IntFormat(4, true, false), tail[..4])
  {
    hide Decode, WellFormed, Unambiguous, Unpack, InRange, Half, Pow256;
    DecodeCons(LongField("message_id"), rest, tail, map[]);
    if |tail| >= 4 {
      var acc: Record := map[]["message_id" := IntV(Unpack(IntFormat(4, true, false), tail[..4]))];
      if Decode(rest, tail[4..], acc).Ok? {
        DecodeKeeps(rest, tail[4..], acc, {"message_id"});
      }
    }
  }

  /** Both kinds of fragment header have the message id first. */
  lemma FragmentHeads() returns (plain: seq<Field>, compressed: seq<Field>)
    ensures FragmentSchema() == [LongField("message_id")] + plain
    ensures CompressedFragmentSchema() == [LongField("message_id")] + compressed
    ensures WellFormed(plain) && Unambiguous(plain, {"message_id"}) && WellFormed(compressed) &&
      Unambiguous(compressed, {"message_id"})
  {
    plain := [ByteField("fragment_count"), ByteField("fragment_id"), ShortField("mtu")];
    compressed := [ByteField("fragment_count"), ByteField("fragment_id"), LongField("size"), LongField("crc")];
    hide Unambiguous, WellFormed;
    FieldByField(plain);
    FieldByField(compressed);
    Numbered(plain, {"message_id"}, {});
    Numbered(compressed, {"message_id"}, {});
  }

  lemma SameMessageId(tail: Bytes)
    requires Decode(FragmentSchema(), tail, map[]).Ok? && Decode(CompressedFragmentSchema(), tail, map[]).Ok?
    ensures Num(Decode(FragmentSchema(), tail, map[]).value.0, "message_id")
         == Num(Decode(CompressedFragmentSchema(), tail, map[]).value.0, "message_id")
  {
    hide *;
    var plain, compressed := FragmentHeads();
    MessageIdFirst(plain, tail);
    MessageIdFirst(compressed, tail);
  }

  lemma SignBit(messageId: int)
    requires -0x8000_0000 <= messageId < 0x8000_0000
    ensures IsCompressed(messageId) <==> messageId < 0
  {
  }

  /** Parsing never fails in any way but BrokenMessageError; the numbers of a part are in range, and it is compressed
      exactly when its message id is negative. */
  lemma ParseRanges(packet: Bytes)
    ensures !Parse(packet).Crash?
    ensures Parse(packet).Ok? && Parse(packet).value.Part? ==>
      var Part(messageId, count, piece) := Parse(packet).value;
      && -0x8000_0000 <= messageId < 0x8000_0000 && 0 <= count < 256 && 0 <= piece.id < 256
      && (piece.compressed <==> messageId < 0)
  {
    hide ParseFragment, Decode, HeaderSchema, Unpack;
    HeaderValue(packet);
    if |packet| >= 4 {
      PartRanges(packet[4..]);
    }
  }

  lemma PartRanges(tail: Bytes)
    ensures !ParseFragment(tail).Crash?
    ensures ParseFragment(tail).Ok? ==> ParseFragment(tail).value.Part?
    ensures ParseFragment(tail).Ok? ==>
      var Part(messageId, count, piece) := ParseFragment(tail).value;
      && -0x8000_0000 <= messageId < 0x8000_0000 && 0 <= count < 256 && 0 <= piece.id < 256
      && (piece.compressed <==> messageId < 0)
  {
    FragmentRanges(FragmentSchema(), tail);
    FragmentRanges(CompressedFragmentSchema(), tail);
    hide Decode, FragmentSchema, CompressedFragmentSchema, Num, IsCompressed;
    if Decode(FragmentSchema(), tail, map[]).Ok? {
      SignBit(Num(Decode(FragmentSchema(), tail, map[]).value.0, "message_id"));
      if Decode(CompressedFragmentSchema(), tail, map[]).Ok? {
        SameMessageId(tail);
      }
    }
  }

  // ---------------------------------------------------------------- what is sent

  /** Header().encode(split=...). */
  function HeaderBytes(split: int): Outcome<Bytes> {
    Encode(HeaderSchema(), map["split" := IntV(split)], map[]).0
  }

  function FragmentValues(messageId: int, count: int, id: int, mtu: int): Record {
    map["message_id" := IntV(messageId), "fragment_count" := IntV(count), "fragment_id" := IntV(id), "mtu" := IntV(mtu)]
  }

  /** Fragment().encode(..., split_header=True). */
  function FragmentHeader(messageId: int, count: int, id: int, mtu: int): Outcome<Bytes> {
    match Encode(FragmentSchema(), FragmentValues(messageId, count, id, mtu), map[]).0
    case Ok(b) =>
      (match HeaderBytes(SPLIT) case Ok(h) => Ok(h + b) case Broken => Broken case Crash => Crash)
    case Broken => Broken
    case Crash => Crash
  }

  predicate FragmentFits(messageId: int, count: int, id: int, mtu: int) {
    -0x8000_0000 <= messageId < 0x8000_0000 && 0 <= count < 256 && 0 <= id < 256 && -0x8000 <= mtu < 0x8000
  }

  lemma {:induction false} NumericEncode(fields: seq<Field>, values: Record, mins: Minimums)
    requires WellFormed(fields) && Numeric(fields)
    requires forall i :: 0 <= i < |fields| ==>
      fields[i].IntField? && fields[i].name in values && values[fields[i].name].IntV? &&
        forall v :: fields[i].accepts(v)
    ensures !Encode(fields, values, mins).0.Crash? && Encode(fields, values, mins).1 == mins
    ensures Encode(fields, values, mins).0.Ok? <==> HasNumbers(values, fields)
    ensures Plain(fields, values) && Explicit(fields, values)
  {
    if |fields| > 0 {
      NumericEncode(fields[1..], values, mins);
    }
  }

  lemma {:induction false} HasNumbersIf(values: Record, fields: seq<Field>)
    requires WellFormed(fields)
    requires forall i :: 0 <= i < |fields| ==> WellFormedField(fields[i]) && HasNumber(values, fields[i])
    ensures HasNumbers(values, fields)
  {
    if |fields| > 0 {
      HasNumbersIf(values, fields[1..]);
    }
  }

  lemma HeaderEncodes(split: int)
    requires split == SPLIT || split == NO_SPLIT
    ensures HeaderBytes(split).Ok? && |HeaderBytes(split).value| == 4
    ensures Unpack(IntFormat(4, true, false), HeaderBytes(split).value) == split
  {
    LongRange(split);
    var f := HeaderSchema()[0];
    assert HeaderSchema() == [f] + [];
    var values: Record := map["split" := IntV(split)];
    EncodeCons(f, [], values, map[]);
    UnpackInvertsPack(f.format, split);
    var b := Pack(f.format, split).value;
    assert EncodeField(f, values, map[]) == (Ok(b), map[]) && Encode([], values, map[]) == (Ok([]), map[]);
    assert b + [] == b;
  }

  /** The header that `encode` puts in front of a packet. */
  lemma NoSplitHeader()
    ensures HeaderBytes(NO_SPLIT) == Ok(NO_SPLIT_HEADER)
  {
    HeaderEncodes(NO_SPLIT);
    var b := HeaderBytes(NO_SPLIT).value;
    var format := IntFormat(4, true, false);
    PackInvertsUnpack(format, b);
    assert FromLowFirst([255]) == 255 + 256 * FromLowFirst([]);
    assert FromLowFirst([255, 255]) == 255 + 256 * FromLowFirst([255]);
    assert FromLowFirst([255, 255, 255]) == 255 + 256 * FromLowFirst([255, 255]);
    assert FromLowFirst(NO_SPLIT_HEADER) == 255 + 256 * FromLowFirst([255, 255, 255]);
    LongRange(0);
    assert Unpack(format, NO_SPLIT_HEADER) == -1;
    PackInvertsUnpack(format, NO_SPLIT_HEADER);
  }

  lemma FragmentHeaderEncodes(messageId: int, count: int, id: int, mtu: int)
    ensures !FragmentHeader(messageId, count, id, mtu).Crash?
    ensures FragmentHeader(messageId, count, id, mtu).Ok? <==> FragmentFits(messageId, count, id, mtu)
  {
    var fields, values := FragmentSchema(), FragmentValues(messageId, count, id, mtu);
    HeaderEncodes(SPLIT);
    Numbered(fields, {}, {});
    NumericEncode(fields, values, map[]);
    hide Encode, HasNumbers, Numeric, Unambiguous, Closed, WellFormed;
    LongRange(messageId);
    assert Pow256(0) == 1 && Pow256(1) == 256;
    assert Half(2) == 0x8000;
    if HasNumbers(values, fields) {
      HasNumberAt(values, fields, 0);
      HasNumberAt(values, fields, 1);
      HasNumberAt(values, fields, 2);
      HasNumberAt(values, fields, 3);
    }
    if FragmentFits(messageId, count, id, mtu) {
      assert HasNumber(values, fields[0]) && HasNumber(values, fields[1]);
      assert HasNumber(values, fields[2]) && HasNumber(values, fields[3]);
      HasNumbersIf(values, fields);
    }
  }

  lemma FragmentRoundTrip(messageId: int, count: int, id: int, mtu: int, content: Bytes)
    requires FragmentFits(messageId, count, id, mtu)
    ensures var values := FragmentValues(messageId, count, id, mtu);
      && Encode(FragmentSchema(), values, map[]).0.Ok?
      && Decode(FragmentSchema(), Encode(FragmentSchema(), values, map[]).0.value + content, map[]) ==
        Ok((values, content))
  {
    FragmentHeaderEncodes(messageId, count, id, mtu);
    var fields, values := FragmentSchema(), FragmentValues(messageId, count, id, mtu);
    Numbered(fields, {}, {});
    NumericEncode(fields, values, map[]);
    FragmentNames();
    hide Encode, Decode, Numeric, Unambiguous, WellFormed;
    RoundTripExact(fields, values, map[], content);
  }

  lemma ParseHeader(h: Bytes, tail: Bytes)
    requires |h| == 4 && Unpack(IntFormat(4, true, false), h) == SPLIT
    ensures Parse(h + tail) == ParseFragment(tail)
  {
    HeaderValue(h + tail);
    assert (h + tail)[..4] == h && (h + tail)[4..] == tail;
    hide Decode, Unpack, ParseFragment;
  }

  lemma FragmentNums(messageId: int, count: int, id: int, mtu: int, content: Bytes)
    ensures var values := FragmentValues(messageId, count, id, mtu);
      && PartOf(values, false, content) == Part(messageId, count, Piece(id, false, content))
      && Num(values, "message_id") == messageId
  {
  }

  lemma ParsePlainFragment(tail: Bytes, values: Record, content: Bytes)
    requires Decode(FragmentSchema(), tail, map[]) == Ok((values, content))
    requires 0 <= Num(values, "message_id") < 0x8000_0000
    ensures ParseFragment(tail) == Ok(PartOf(values, false, content))
  {
    hide Decode, FragmentSchema, CompressedFragmentSchema, WellFormed, Num, PartOf;
  }

  /** The receiver reads from a fragment exactly what the sender wrote into it. */
  lemma ParseInvertsFragmentHeader(messageId: int, count: int, id: int, mtu: int, content: Bytes)
    requires FragmentFits(messageId, count, id, mtu) && messageId >= 0
    ensures FragmentHeader(messageId, count, id, mtu).Ok?
    ensures Parse(FragmentHeader(messageId, count, id, mtu).value + content) ==
      Ok(Part(messageId, count, Piece(id, false, content)))
  {
    var values := FragmentValues(messageId, count, id, mtu);
    var b := Encode(FragmentSchema(), values, map[]).0;
    var h := HeaderBytes(SPLIT);
    assert h.Ok? && b.Ok? ==> FragmentHeader(messageId, count, id, mtu) == Ok(h.value + b.value);
    assert FragmentFits(messageId, count, id, mtu) ==> messageId < 0x8000_0000;
    hide *;
    FragmentHeaderEncodes(messageId, count, id, mtu);
    FragmentRoundTrip(messageId, count, id, mtu, content);
    HeaderEncodes(SPLIT);
    FragmentNums(messageId, count, id, mtu, content);
    ParsePlainFragment(b.value + content, values, content);
    Reassociate(h.value, b.value, content);
    ParseHeader(h.value, b.value + content);
  }

  lemma FragmentNames()
    ensures Names(FragmentSchema()) == {"message_id", "fragment_count", "fragment_id", "mtu"}
  {
    var f := FragmentSchema();
    assert f[1..][1..] == f[2..] && f[2..][1..] == f[3..] && f[3..][1..] == [];
    assert Names(f[3..]) == {"mtu"} && Names(f[2..]) == {"fragment_id", "mtu"};
    assert Names(f[1..]) == {"fragment_count", "fragment_id", "mtu"};
  }

  /** Datagrams with the ordinary header are handed on as they are. */
  lemma ParseUnsplit(body: Bytes)
    ensures Parse(NO_SPLIT_HEADER + body) == Ok(Unsplit)
  {
    NoSplitHeader();
    HeaderEncodes(NO_SPLIT);
    HeaderValue(NO_SPLIT_HEADER + body);
    assert (NO_SPLIT_HEADER + body)[..4] == NO_SPLIT_HEADER;
  }
}
