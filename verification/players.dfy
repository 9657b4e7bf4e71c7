/** The players response: every encoded entry gets a packet header that decoding does not expect. */
module Players {
  import opened Outcomes
  import opened Wire
  import opened Codec
  import opened CodecLaws
  import opened Messages
  import opened Reading

  function EntryValues(index: int, name: Bytes, score: int, duration: Bytes): Record {
    map["index" := IntV(index), "name" := TextV(name), "score" := IntV(score), "duration" := ChunkV(duration)]
  }

  /** How one entry is read from its bytes: a byte, a text, a long, four bytes of an IEEE float. */
  lemma EntryRead(buf: Bytes)
    ensures Decode(PlayerEntrySchema(), buf, map[]) ==
      if buf == [] || Terminator(buf[1..]) == |buf[1..]| then Broken
      else
        var name := buf[1..][..Terminator(buf[1..])];
        var rest := buf[1..][|name| + 1..];
        if |rest| < 8 then Broken
        else Ok((EntryValues(buf[0], name, LongOf(rest[..4]), rest[4..8]), rest[8..]))
  {
    hide *;
    EntrySchema();
    TextStep("name", PlayerTail(), [], map[]);
    ByteStep("index", [StringField("name")] + PlayerTail(), buf, map[]);
    if buf != [] {
      var acc: Record := map[]["index" := IntV(buf[0])];
      TextStep("name", PlayerTail(), buf[1..], acc);
      var n := Terminator(buf[1..]);
      if n < |buf[1..]| {
        TailRead(buf[0], buf[1..][..n], buf[1..][n + 1..]);
      }
    }
  }

  lemma TailRead(index: int, name: Bytes, rest: Bytes)
    ensures Decode(PlayerTail(), rest, map[]["index" := IntV(index)]["name" := TextV(name)]) ==
      if |rest| < 8 then Broken else Ok((EntryValues(index, name, LongOf(rest[..4]), rest[4..8]), rest[8..]))
  {
    hide *;
    TailSchema();
    var acc: Record := map[]["index" := IntV(index)]["name" := TextV(name)];
    ChunkStep("duration", 4, true, [], [], map[]);
    LongStep("score", [ChunkField("duration", 4, true)] + [], rest, acc);
    if |rest| >= 4 {
      var acc1 := acc["score" := IntV(LongOf(rest[..4]))];
      ChunkStep("duration", 4, true, [], rest[4..], acc1);
      if |rest| >= 8 {
        DropTwice(rest, 4, 4);
        assert rest[4..][..4] == rest[4..8];
        EntryFilled(index, name, LongOf(rest[..4]), rest[4..8], rest[8..]);
      }
    }
  }

  lemma EntryFilled(index: int, name: Bytes, score: int, duration: Bytes, left: Bytes)
    ensures
      var values: Record := map[]["index" := IntV(index)]["name" := TextV(name)]["score" := IntV(score)]
        ["duration" := ChunkV(duration)];
      Decode([], left, values) == Ok((EntryValues(index, name, score, duration), left))
  {
  }

  lemma TailSchema()
    ensures PlayerTail() == [LongField("score")] + ([ChunkField("duration", 4, true)] + [])
  {
  }

  /** What a decoded entry says about its buffer. */
  lemma EntryDecode(buf: Bytes)
    requires Decode(PlayerEntrySchema(), buf, map[]).Ok?
    ensures var entry := Decode(PlayerEntrySchema(), buf, map[]).value.0;
      && buf != [] && Terminator(buf[1..]) < |buf[1..]|
      && "index" in entry && entry["index"] == IntV(buf[0])
      && "name" in entry && entry["name"] == TextV(buf[1..][..Terminator(buf[1..])])
  {
    EntryRead(buf);
    hide Decode, PlayerEntrySchema, Terminator, LongOf;
  }

  /** The entry after its name. */
  function PlayerTail(): (fields: seq<Field>)
    ensures WellFormed(fields)
  {
    var fields := [LongField("score"), ChunkField("duration", 4, true)];
    FieldByField(fields);
    fields
  }

  lemma EntrySchema()
    ensures PlayerEntrySchema() == [ByteField("index")] + ([StringField("name")] + PlayerTail())
  {
  }

  /** What an encoded entry starts with. */
  lemma EntryEncode(entry: Record, mins: Minimums) returns (index: Byte, name: Bytes, more: Bytes)
    requires Encode(PlayerEntrySchema(), entry, mins).0.Ok?
    ensures "index" in entry && entry["index"] == IntV(index)
    ensures "name" in entry && entry["name"] == TextV(name)
    ensures Encode(PlayerEntrySchema(), entry, mins).0.value == [index] + (name + [0] + more)
  {
    EntrySchema();
    EncodeCons(StringField("name"), PlayerTail(), entry, mins);
    EncodeCons(ByteField("index"), [StringField("name")] + PlayerTail(), entry, mins);
    hide Encode, PlayerEntrySchema, PlayerTail;
    assert Pow256(0) == 1 && Pow256(1) == 256;
    index, name := entry["index"].i, entry["name"].text;
    ByteValue(index);
    more := Encode(PlayerTail(), entry, mins).0.value;
  }

  /** An entry read back through the inserted header is never the entry that was written. */
  lemma HeaderSpoilsEntry(entry: Record, mins: Minimums, rest: Bytes)
    requires Encode(PlayerEntrySchema(), entry, mins).0.Ok?
    requires Decode(PlayerEntrySchema(), NO_SPLIT_HEADER + (Encode(PlayerEntrySchema(), entry, mins).0.value + rest),
      map[]).Ok?
    ensures Decode(PlayerEntrySchema(), NO_SPLIT_HEADER + (Encode(PlayerEntrySchema(), entry, mins).0.value + rest),
      map[]).value.0 != entry
  {
    hide *;
    var encoded := Encode(PlayerEntrySchema(), entry, mins).0.value;
    var index, name, more := EntryEncode(entry, mins);
    EntryDecode(NO_SPLIT_HEADER + (encoded + rest));
    HeaderSpoilsName(index, name, more + rest);
    HeaderedBytes(index, name, more, rest);
  }

  lemma HeaderedBytes(index: Byte, name: Bytes, more: Bytes, rest: Bytes)
    ensures var buf := NO_SPLIT_HEADER + ([index] + (name + [0] + more) + rest);
      buf[0] == 255 && buf[1..] == [255, 255, 255] + ([index] + (name + [0] + (more + rest)))
  {
    Reassociate([index], name + [0] + more, rest);
    Reassociate(name + [0], more, rest);
  }

  lemma HeaderSpoilsName(index: Byte, name: Bytes, more: Bytes)
    ensures var buf := [255, 255, 255] + ([index] + (name + [0] + more));
      index == 255 ==> buf[..Terminator(buf)] != name
  {
    if index == 255 && 0 !in name {
      var front := [255, 255, 255, 255] + name;
      assert [255, 255, 255] + ([index] + (name + [0] + more)) == front + [0] + more;
      TerminatorOf(front, more);
    }
  }

  // ---------------------------------------------------------------- the whole response

  function PlayersValues(count: int, items: seq<Record>): Record {
    map["response_type" := IntV(0x44), "player_count" := IntV(count), "players" := ListV(items)]
  }

  /** How a players response is decoded; headers in front of encoded entries play no part in it. */
  lemma PlayersDecode(packet: bool, buf: Bytes)
    ensures |buf| < 2 || buf[0] != 0x44 ==> Decode(PlayersSchema(packet), buf, map[]).Broken?
    ensures |buf| >= 2 && buf[0] == 0x44 ==>
      Decode(PlayersSchema(packet), buf, map[]) ==
        match DecodeMany(PlayerEntrySchema(), buf[2..], Bound(Some(buf[1]), buf[1]), 0)
        case Ok((items, rest)) => Ok((PlayersValues(buf[1], items), rest))
        case Broken => Broken
        case Crash => Crash
  {
    hide *;
    PlayersFields(packet);
    var list := [PlayersField(packet)];
    var rest := [ByteField("player_count")] + list;
    FirstByte("response_type", false, 0x44, rest, buf);
    if buf != [] && buf[0] == 0x44 {
      ByteStep("player_count", list, buf[1..], map["response_type" := IntV(0x44)]);
      if |buf| >= 2 {
        DropTwice(buf, 1, 1);
        PlayersFieldDecode(packet, buf[1], buf[2..]);
      }
    }
  }

  lemma PlayersFields(packet: bool)
    ensures WellFormed([PlayersField(packet)]) && WellFormed([ByteField("player_count")] + [PlayersField(packet)])
    ensures PlayersSchema(packet) ==
      [TypeField("response_type", false, 0x44)] + ([ByteField("player_count")] + [PlayersField(packet)])
  {
    FieldByField([PlayersField(packet)]);
    FieldByField([ByteField("player_count")] + [PlayersField(packet)]);
    hide WellFormed;
  }

  lemma PlayersFieldDecode(packet: bool, count: int, rest: Bytes)
    ensures WellFormed([PlayersField(packet)])
    ensures Decode([PlayersField(packet)], rest, map["response_type" := IntV(0x44)]["player_count" := IntV(count)]) ==
      match DecodeMany(PlayerEntrySchema(), rest, Bound(Some(count), count), 0)
      case Ok((items, rest')) => Ok((PlayersValues(count, items), rest'))
      case Broken => Broken
      case Crash => Crash
  {
    FieldByField([PlayersField(packet)]);
    DecodeCons(PlayersField(packet), [], rest, map["response_type" := IntV(0x44)]["player_count" := IntV(count)]);
    assert [PlayersField(packet)] == [PlayersField(packet)] + [];
  }

  // ---------------------------------------------------------------- round trips, with and without headers

  predicate WellPlayed(values: Record) {
    && Plain(PlayersSchema(true), values) && Explicit(PlayersSchema(true), values)
    && values.Keys == Names(PlayersSchema(true))
  }

  lemma PlayersShape(values: Record)
    requires WellPlayed(values)
    ensures "response_type" in values && "player_count" in values && "players" in values && values["players"].ListV?
    ensures forall packet :: Plain(PlayersSchema(packet), values) && Explicit(PlayersSchema(packet), values)
    ensures forall packet :: values.Keys == Names(PlayersSchema(packet))
    ensures Closed(PlayersSchema(false), {}, {})
  {
    var t, c := TypeField("response_type", false, 0x44), ByteField("player_count");
    forall packet
      ensures Plain(PlayersSchema(packet), values) <==>
        PlainField(t, values) && PlainField(c, values) && PlainField(PlayersField(packet), values)
      ensures Explicit(PlayersSchema(packet), values) <==>
        ExplicitField(t, values) && ExplicitField(c, values) && ExplicitField(PlayersField(packet), values)
      ensures Names(PlayersSchema(packet)) == {"response_type"} + ({"player_count"} + {"players"})
      ensures Closed(PlayersSchema(packet), {}, {}) <==>
        ClosedArray(PlayersField(packet), {"response_type", "player_count"})
    {
      PlayersParts(packet, values);
    }
    EntryClosed();
    hide PlayersSchema, Plain, Explicit, Closed, PlayerEntrySchema;
  }

  lemma PlayersParts(packet: bool, values: Record)
    ensures var t, c := TypeField("response_type", false, 0x44), ByteField("player_count");
      && (Plain(PlayersSchema(packet), values) <==>
        PlainField(t, values) && PlainField(c, values) && PlainField(PlayersField(packet), values))
      && (Explicit(PlayersSchema(packet), values) <==>
            ExplicitField(t, values) && ExplicitField(c, values) && ExplicitField(PlayersField(packet), values))
      && Names(PlayersSchema(packet)) == {"response_type"} + ({"player_count"} + {"players"})
      && (Closed(PlayersSchema(packet), {}, {}) <==>
        ClosedArray(PlayersField(packet), {"response_type", "player_count"}))
  {
    var t, c, list := TypeField("response_type", false, 0x44), ByteField("player_count"), PlayersField(packet);
    assert PlayersSchema(packet) == [t] + ([c] + ([list] + []));
    hide PlayersSchema, PlainField, ExplicitField, ClosedArray;
    SchemaCons(t, [c] + ([list] + []), values, {}, {});
    SchemaCons(c, [list] + [], values, {"response_type"}, {"response_type"});
    SchemaCons(list, [], values, {"response_type", "player_count"}, {"response_type", "player_count"});
    assert {} + {"response_type"} == {"response_type"};
    assert {"response_type"} + {"player_count"} == {"response_type", "player_count"};
  }

  lemma EntryClosed()
    ensures Closed(PlayerEntrySchema(), {}, {})
  {
    var f := PlayerEntrySchema();
    assert f == [f[0]] + ([f[1]] + ([f[2]] + ([f[3]] + [])));
    SchemaCons(f[0], [f[1]] + ([f[2]] + ([f[3]] + [])), map[], {}, {});
    SchemaCons(f[1], [f[2]] + ([f[3]] + []), map[], {} + {"index"}, {} + {"index"});
    SchemaCons(f[2], [f[3]] + [], map[], {} + {"index"} + {"name"}, {} + {"index"} + {});
    SchemaCons(f[3], [], map[], {} + {"index"} + {"name"} + {"score"}, {} + {"index"} + {} + {"score"});
  }

  /** Entries written without headers, as the protocol has them, are read back exactly. */
  lemma HeaderlessPlayers(values: Record, mins: Minimums, tail: Bytes)
    requires WellPlayed(values) && Encode(PlayersSchema(false), values, mins).0.Ok?
    ensures Decode(PlayersResponseSchema(), Encode(PlayersSchema(false), values, mins).0.value + tail, map[]) ==
      Ok((values, tail))
  {
    hide *;
    PlayersShape(values);
    RoundTripExact(PlayersSchema(false), values, mins, tail);
    var buf := Encode(PlayersSchema(false), values, mins).0.value + tail;
    PlayersDecode(false, buf);
    PlayersDecode(true, buf);
    assert PlayersResponseSchema() == PlayersSchema(true) by { ResponseIsPacket(); }
  }

  lemma ResponseIsPacket()
    ensures PlayersResponseSchema() == PlayersSchema(true)
  {
  }

  lemma PlayersEncode(packet: bool, values: Record, mins: Minimums)
    requires WellPlayed(values)
    ensures values["players"].ListV?
    ensures
      var count := values["player_count"];
      var (entries, mins') := EncodeItems(PlayersField(packet), values["players"].items, 0, values, mins);
      Encode(PlayersSchema(packet), values, mins) ==
        if values["response_type"] != IntV(0x44) || !count.IntV? || !(0 <= count.i < 256) then (Broken, mins)
        else (if entries.Ok? then Ok([0x44] + ([count.i] + entries.value)) else entries, mins')
  {
    var list := [PlayersField(packet)];
    assert PlayersSchema(packet) == [TypeField("response_type", false, 0x44)] + ([ByteField("player_count")] + list);
    assert list == list + [] && WellFormedField(PlayersField(packet)) && Encode([], values, mins) == (Ok([]), mins);
    assert EncodeField(PlayersField(packet), values, mins) ==
      EncodeItems(PlayersField(packet), values["players"].items, 0, values, mins)
      by { PlayersShape(values); }
    hide *;
    PlayersShape(values);
    FieldByField(list);
    EncodeCons(PlayersField(packet), [], values, mins);
    ByteEncodeStep("player_count", list, values, mins);
    TypeEncodeStep("response_type", 0x44, [ByteField("player_count")] + list, values, mins);
    NothingAfter(EncodeItems(PlayersField(packet), values["players"].items, 0, values, mins).0);
  }

  lemma NothingAfter(r: Outcome<Bytes>)
    ensures r.Ok? ==> r.value + [] == r.value
  {
  }

  lemma ByteEncodeStep(name: string, rest: seq<Field>, values: Record, mins: Minimums)
    requires WellFormed(rest) && name in values
    ensures WellFormed([ByteField(name)] + rest)
    ensures
      var v := values[name];
      var (more, mins') := Encode(rest, values, mins);
      Encode([ByteField(name)] + rest, values, mins) ==
        if !v.IntV? || !(0 <= v.i < 256) then (Broken, mins)
        else (if more.Ok? then Ok([v.i] + more.value) else more, mins')
  {
    EncodeCons(ByteField(name), rest, values, mins);
    assert Pow256(0) == 1 && Pow256(1) == 256;
    if values[name].IntV? && 0 <= values[name].i < 256 {
      ByteValue(values[name].i);
    }
  }

  lemma TypeEncodeStep(name: string, code: Byte, rest: seq<Field>, values: Record, mins: Minimums)
    requires WellFormed(rest) && name in values
    ensures WellFormed([TypeField(name, false, code)] + rest)
    ensures
      var (more, mins') := Encode(rest, values, mins);
      Encode([TypeField(name, false, code)] + rest, values, mins) ==
        if values[name] != IntV(code) then (Broken, mins)
        else (if more.Ok? then Ok([code] + more.value) else more, mins')
  {
    EncodeCons(TypeField(name, false, code), rest, values, mins);
    ByteValue(code);
  }

  /** The first entry of an encoded response stands behind a header. */
  lemma FirstEncoded(values: Record, mins: Minimums, tail: Bytes) returns (mins1: Minimums, rest: Bytes)
    requires WellPlayed(values) && Encode(PlayersSchema(true), values, mins).0.Ok?
    requires "players" in values && values["players"].ListV? && values["players"].items != []
    ensures Encode(PlayerEntrySchema(), values["players"].items[0], mins1).0.Ok?
    ensures var buf := Encode(PlayersSchema(true), values, mins).0.value + tail;
      |buf| >= 2 && buf[2..] ==
        NO_SPLIT_HEADER + (Encode(PlayerEntrySchema(), values["players"].items[0], mins1).0.value + rest)
  {
    var items, list := values["players"].items, PlayersField(true);
    assert list.element == PlayerEntrySchema() && list.packet && WellFormedField(list);
    hide *;
    PlayersEncode(true, values, mins);
    var mins2, first, more;
    mins1, mins2, first, more := EncodeItemsStep(list, items, 0, values, mins);
    PacketEncode(PlayerEntrySchema(), items[0], mins1);
    ArrayBytes(values["player_count"].i, Encode(PlayerEntrySchema(), items[0], mins1).0.value, more, tail);
    rest := more + tail;
  }

  /** The first entry of a decoded response is read right after the count. */
  lemma FirstDecoded(buf: Bytes, items: seq<Record>)
    requires Decode(PlayersSchema(true), buf, map[]).Ok?
    requires PlayersIn(Decode(PlayersSchema(true), buf, map[]).value.0) == items && items != []
    ensures |buf| >= 2 && Decode(PlayerEntrySchema(), buf[2..], map[]).Ok?
    ensures Decode(PlayerEntrySchema(), buf[2..], map[]).value.0 == items[0]
  {
    hide *;
    PlayersDecode(true, buf);
    var many := DecodeMany(PlayerEntrySchema(), buf[2..], Bound(Some(buf[1]), buf[1]), 0);
    PlayersInValues(buf[1], many.value.0);
    var entry, next, entries, left := DecodeManyStep(PlayerEntrySchema(), buf[2..], Bound(Some(buf[1]), buf[1]), 0);
  }

  /** The list of players in a decoded response. */
  function PlayersIn(values: Record): seq<Record> {
    if "players" in values && values["players"].ListV? then values["players"].items else []
  }

  lemma PlayersInValues(count: int, items: seq<Record>)
    ensures PlayersIn(PlayersValues(count, items)) == items
  {
  }

  lemma NotInverted(values: Record, mins: Minimums, tail: Bytes)
    requires WellPlayed(values) && Encode(PlayersSchema(true), values, mins).0.Ok?
    requires "players" in values && values["players"].ListV? && values["players"].items != []
    ensures Decode(PlayersSchema(true), Encode(PlayersSchema(true), values, mins).0.value + tail,
      map[]) != Ok((values, tail))
  {
    assert PlayersIn(values) == values["players"].items;
    hide *;
    var buf := Encode(PlayersSchema(true), values, mins).0.value + tail;
    var mins1, rest := FirstEncoded(values, mins, tail);
    if Decode(PlayersSchema(true), buf, map[]) == Ok((values, tail)) {
      FirstDecoded(buf, PlayersIn(values));
      HeaderSpoilsEntry(values["players"].items[0], mins1, rest);
    }
  }

  lemma PacketEncode(fields: seq<Field>, values: Record, mins: Minimums)
    requires WellFormed(fields)
    ensures EncodeMessage(true, fields, values, mins).0.Ok? ==>
      && Encode(fields, values, mins).0.Ok?
      && EncodeMessage(true, fields, values, mins).0.value == NO_SPLIT_HEADER + Encode(fields, values, mins).0.value
  {
  }

  lemma ArrayBytes(n: Byte, entry: Bytes, rest: Bytes, tail: Bytes)
    ensures ([0x44] + ([n] + ((NO_SPLIT_HEADER + entry) + rest)) + tail)[2..] ==
      NO_SPLIT_HEADER + (entry + (rest + tail))
  {
  }

  /** Entries as `encode` writes them are read back exactly when there are none. */
  lemma PlayersInvertedIffEmpty(values: Record, mins: Minimums, tail: Bytes)
    requires WellPlayed(values) && Encode(PlayersResponseSchema(), values, mins).0.Ok?
    ensures
      var bytes := Encode(PlayersResponseSchema(), values, mins).0.value;
      Decode(PlayersResponseSchema(), bytes + tail, map[]) == Ok((values, tail)) <==> values["players"] == ListV([])
  {
    PlayersShape(values);
    hide *;
    ResponseIsPacket();
    PlayersEncode(true, values, mins);
    PlayersEncode(false, values, mins);
    if values["players"].items == [] {
      NoEntries(values, mins);
      HeaderlessPlayers(values, mins, tail);
    } else {
      NotInverted(values, mins, tail);
    }
  }

  lemma NoEntries(values: Record, mins: Minimums)
    ensures EncodeItems(PlayersField(true), [], 0, values, mins) ==
      EncodeItems(PlayersField(false), [], 0, values, mins)
  {
  }
}
