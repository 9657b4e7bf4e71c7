/** The A2S and master-server messages as schemas. */
module Messages {
  import opened Outcomes
  import opened Wire
  import opened Codec

  const NO_SPLIT: int := -1
  const SPLIT: int := -2

  function Scalar(name: string, width: nat, signed: bool): Field {
    IntField(name, Required, IntFormat(width, signed, false), (x: int) => true, Number)
  }

  function ByteField(name: string): Field { Scalar(name, 1, false) }

  function ShortField(name: string): Field { Scalar(name, 2, true) }

  function LongField(name: string): Field { Scalar(name, 4, true) }

  /** A byte that must have one value; the value is also its default when `optional`. */
  function TypeField(name: string, optional: bool, code: int): Field {
    IntField(name, if optional then WithDefault(IntV(code)) else Required, IntFormat(1, false, false),
      (x: int) => x == code, Number)
  }

  function KindField(name: string, kind: Kind): Field {
    IntField(name, Required, IntFormat(1, false, false), (x: int) => true, kind)
  }

  function StringField(name: string): Field { TextField(name, Required) }

  lemma {:induction false} FieldByField(fields: seq<Field>)
    requires forall i :: 0 <= i < |fields| ==> WellFormedField(fields[i])
    ensures WellFormed(fields)
    ensures (forall i :: 0 <= i < |fields| ==> !fields[i].ArrayField?) ==> Closures(fields) == {}
  {
    if |fields| > 0 {
      FieldByField(fields[1..]);
    }
  }

  lemma {:induction false} Concatenated(front: seq<Field>, back: seq<Field>)
    requires WellFormed(front) && WellFormed(back)
    ensures WellFormed(front + back)
  {
    if |front| == 0 {
      assert front + back == back;
    } else {
      Concatenated(front[1..], back);
      assert (front + back)[1..] == front[1..] + back;
    }
  }

  function HeaderSchema(): (fields: seq<Field>)
    ensures WellFormed(fields)
  {
    var fields := [IntField("split", Required, IntFormat(4, true, false), (x: int) => x == SPLIT || x ==
      NO_SPLIT, Number)];
    FieldByField(fields);
    fields
  }

  function FragmentSchema(): (fields: seq<Field>)
    ensures WellFormed(fields)
  {
    var fields := [LongField("message_id"), ByteField("fragment_count"), ByteField("fragment_id"), ShortField("mtu")];
    FieldByField(fields);
    fields
  }

  function CompressedFragmentSchema(): (fields: seq<Field>)
    ensures WellFormed(fields)
  {
    var fields := [LongField("message_id"), ByteField("fragment_count"), ByteField("fragment_id"), LongField("size"),
      LongField("crc")];
    FieldByField(fields);
    fields
  }

  /** The bytes of 'Source Engine Query'. */
  function SourceEngineQuery(): (payload: Bytes)
    ensures 0 !in payload
  {
    [83, 111, 117, 114, 99, 101, 32, 69, 110, 103, 105, 110, 101, 32, 81, 117, 101, 114, 121]
  }

  function InfoRequestSchema(): (fields: seq<Field>)
    ensures WellFormed(fields) && |fields| > 0 && fields[0] == TypeField("request_type", true, 0x54)
  {
    var fields := [TypeField("request_type", true, 0x54),
      TextField("payload", WithDefault(TextV(SourceEngineQuery())))];
    FieldByField(fields);
    fields
  }

  function OptionalChallenge(): Field {
    IntField("challenge", Skippable, IntFormat(4, true, false), (x: int) => true, Number)
  }

  function InfoRequestV2Schema(): (fields: seq<Field>)
    ensures WellFormed(fields) && |fields| > 0 && fields[0] == TypeField("request_type", true, 0x54)
  {
    var fields := InfoRequestSchema() + [OptionalChallenge()];
    FieldByField(fields);
    fields
  }

  function InfoNames(): (fields: seq<Field>)
    ensures WellFormed(fields)
  {
    var fields := [ByteField("protocol"), StringField("server_name"), StringField("map"), StringField("folder"),
      StringField("game")];
    FieldByField(fields);
    fields
  }

  function InfoCounts(): (fields: seq<Field>)
    ensures WellFormed(fields)
  {
    var fields := [ShortField("app_id"), ByteField("player_count"), ByteField("max_players"), ByteField("bot_count")];
    FieldByField(fields);
    fields
  }

  function InfoFlags(): (fields: seq<Field>)
    ensures WellFormed(fields)
  {
    var fields := [KindField("server_type", ServerType), KindField("platform", Platform),
                   ByteField("password_protected"), ByteField("vac_enabled"), StringField("version")];
    FieldByField(fields);
    fields
  }

  /** The info response after its type byte. */
  function InfoBody(): (fields: seq<Field>)
    ensures WellFormed(fields)
  {
    Concatenated(InfoCounts(), InfoFlags());
    Concatenated(InfoNames(), InfoCounts() + InfoFlags());
    InfoNames() + (InfoCounts() + InfoFlags())
  }

  function InfoResponseSchema(): (fields: seq<Field>)
    ensures WellFormed(fields) && |fields| > 0 && fields[0] == TypeField("response_type", false, 0x49)
  {
    Concatenated([TypeField("response_type", false, 0x49)], InfoBody());
    [TypeField("response_type", false, 0x49)] + InfoBody()
  }

  function ChallengeResponseSchema(): (fields: seq<Field>)
    ensures WellFormed(fields) && |fields| > 0 && fields[0] == TypeField("response_type", true, 0x41)
  {
    var fields := [TypeField("response_type", true, 0x41), LongField("challenge")];
    FieldByField(fields);
    fields
  }

  function PlayersRequestSchema(): (fields: seq<Field>)
    ensures WellFormed(fields) && |fields| > 0 && fields[0] == TypeField("request_type", true, 0x55)
  {
    var fields := [TypeField("request_type", true, 0x55), LongField("challenge")];
    FieldByField(fields);
    fields
  }

  function RulesRequestSchema(): (fields: seq<Field>)
    ensures WellFormed(fields) && |fields| > 0 && fields[0] == TypeField("request_type", true, 0x56)
  {
    var fields := [TypeField("request_type", true, 0x56), LongField("challenge")];
    FieldByField(fields);
    fields
  }

  function PlayerEntrySchema(): (fields: seq<Field>)
    ensures WellFormed(fields) && Closures(fields) == {} && HasScalar(fields)
  {
    var fields := [ByteField("index"), StringField("name"), LongField("score"), ChunkField("duration", 4, true)];
    FieldByField(fields);
    assert !fields[0].ArrayField?;
    fields
  }

  /** The players response, with or without a header in front of each encoded entry. */
  function PlayersSchema(packet: bool): (fields: seq<Field>)
    ensures WellFormed(fields) && |fields| > 0 && fields[0] == TypeField("response_type", false, 0x44)
  {
    var fields := [TypeField("response_type", false, 0x44), ByteField("player_count"), PlayersField(packet)];
    FieldByField(fields);
    fields
  }

  function PlayersField(packet: bool): Field {
    ArrayField("players", PlayerEntrySchema(), packet, ValueOf("player_count"), 0, AsList)
  }

  /** PlayerEntry is a Packet. */
  function PlayersResponseSchema(): seq<Field> {
    PlayersSchema(true)
  }

  function RuleEntrySchema(): (fields: seq<Field>)
    ensures WellFormed(fields) && Closures(fields) == {} && HasScalar(fields)
  {
    var fields := [StringField("key"), StringField("value")];
    FieldByField(fields);
    assert !fields[0].ArrayField?;
    fields
  }

  function RulesField(): Field {
    ArrayField("rules", RuleEntrySchema(), false, ValueOf("rule_count"), 1, AsDict("key", "value"))
  }

  function RulesResponseSchema(): (fields: seq<Field>)
    ensures WellFormed(fields) && |fields| > 0 && fields[0] == TypeField("response_type", false, 0x45)
  {
    var fields := [TypeField("response_type", false, 0x45), ShortField("rule_count"), RulesField()];
    FieldByField(fields);
    fields
  }

  function AddressField(name: string): Field { ChunkField(name, 4, false) }

  function PortField(name: string): Field {
    IntField(name, Required, IntFormat(2, false, true), (x: int) => true, Number)
  }

  function AddressEntrySchema(): (fields: seq<Field>)
    ensures WellFormed(fields) && Closures(fields) == {} && HasScalar(fields)
  {
    var fields := [AddressField("host"), PortField("port")];
    FieldByField(fields);
    assert !fields[0].ArrayField?;
    fields
  }

  function AddressesField(): Field {
    ArrayField("addresses", AddressEntrySchema(), false, All, 2, AsList)
  }

  function MasterServerResponseSchema(): (fields: seq<Field>)
    ensures WellFormed(fields)
  {
    var fields := [AddressField("start_host"), PortField("start_port"), AddressesField()];
    FieldByField(fields);
    fields
  }

  // ---------------------------------------------------------------- reading schemas field by field

  /** The number stored under a name; the schemas above put one there. */
  function Num(values: Record, name: string): int {
    if name in values && values[name].IntV? then values[name].i else 0
  }

  lemma DecodeCons(f: Field, rest: seq<Field>, buf: Bytes, acc: Record)
    requires WellFormedField(f) && WellFormed(rest)
    ensures WellFormed([f] + rest)
    ensures Decode([f] + rest, buf, acc) ==
      match DecodeField(f, buf, acc)
      case Ok((v, next)) => Decode(rest, next, acc[f.name := v])
      case Broken => Broken
      case Crash => Crash
  {
    assert ([f] + rest)[1..] == rest;
  }

  lemma EncodeCons(f: Field, rest: seq<Field>, values: Record, mins: Minimums)
    requires WellFormedField(f) && WellFormed(rest)
    ensures WellFormed([f] + rest)
    ensures Encode([f] + rest, values, mins) ==
      var (first, mins1) := EncodeField(f, values, mins);
      if !first.Ok? then (first, mins1) else
      var (more, mins2) := Encode(rest, values, mins1);
      if !more.Ok? then (more, mins2) else (Ok(first.value + more.value), mins2)
  {
    assert ([f] + rest)[1..] == rest;
  }

  lemma ByteValue(b: Byte)
    ensures Unpack(IntFormat(1, false, false), [b]) == b
    ensures Pack(IntFormat(1, false, false), b) == Ok([b])
  {
    assert FromLowFirst([b]) == b + 256 * FromLowFirst([]);
    PackInvertsUnpack(IntFormat(1, false, false), [b]);
  }

  /** The type byte that is put in front of a message that does not give it. */
  lemma TypeByteEncodes(name: string, code: Byte, values: Record, mins: Minimums)
    requires name !in values
    ensures WellFormedField(TypeField(name, true, code))
    ensures EncodeField(TypeField(name, true, code), values, mins) == (Ok([code]), mins)
  {
    ByteValue(code);
  }

  /** A schema with a type byte in front: another byte breaks it. */
  lemma FirstByte(name: string, optional: bool, code: Byte, rest: seq<Field>, body: Bytes)
    requires WellFormed(rest)
    ensures WellFormed([TypeField(name, optional, code)] + rest)
    ensures body == [] || body[0] != code ==> Decode([TypeField(name, optional, code)] + rest, body, map[]).Broken?
    ensures body != [] && body[0] == code ==>
      Decode([TypeField(name, optional, code)] + rest, body, map[]) == Decode(rest, body[1..], map[name := IntV(code)])
  {
    DecodeCons(TypeField(name, optional, code), rest, body, map[]);
    if body != [] {
      ByteValue(body[0]);
      assert body[..1] == [body[0]];
    }
  }
}
