/** Which message class a packet is decoded as. */
module Dispatch {
  import opened Outcomes
  import opened Wire
  import opened Codec
  import opened CodecLaws
  import opened Messages
  import opened Fragments

  datatype MessageClass =
    | InfoRequest | InfoRequestV2 | PlayersRequest | RulesRequest
    | InfoResponse | PlayersResponse | RulesResponse | GetChallengeResponse

  datatype Message = Message(cls: MessageClass, values: Record, tail: Bytes)

  function TypeCode(c: MessageClass): Byte {
    match c
    case InfoRequest => 0x54
    case InfoRequestV2 => 0x54
    case PlayersRequest => 0x55
    case RulesRequest => 0x56
    case InfoResponse => 0x49
    case PlayersResponse => 0x44
    case RulesResponse => 0x45
    case GetChallengeResponse => 0x41
  }

  function TypeName(c: MessageClass): (string, bool) {
    match c
    case InfoRequest => ("request_type", true)
    case InfoRequestV2 => ("request_type", true)
    case PlayersRequest => ("request_type", true)
    case RulesRequest => ("request_type", true)
    case GetChallengeResponse => ("response_type", true)
    case InfoResponse => ("response_type", false)
    case PlayersResponse => ("response_type", false)
    case RulesResponse => ("response_type", false)
  }

  function SchemaOf(c: MessageClass): (fields: seq<Field>)
    ensures WellFormed(fields)
  {
    match c
    case InfoRequest => InfoRequestSchema()
    case InfoRequestV2 => InfoRequestV2Schema()
    case PlayersRequest => PlayersRequestSchema()
    case RulesRequest => RulesRequestSchema()
    case InfoResponse => InfoResponseSchema()
    case PlayersResponse => PlayersResponseSchema()
    case RulesResponse => RulesResponseSchema()
    case GetChallengeResponse => ChallengeResponseSchema()
  }

  lemma SchemaHead(c: MessageClass)
    ensures |SchemaOf(c)| > 0 && SchemaOf(c)[0] == TypeField(TypeName(c).0, TypeName(c).1, TypeCode(c))
  {
    hide InfoRequestSchema, InfoRequestV2Schema, PlayersRequestSchema, RulesRequestSchema,
         InfoResponseSchema, PlayersSchema, RulesResponseSchema, ChallengeResponseSchema;
    match c {
      case InfoRequest => assert SchemaOf(c) == InfoRequestSchema();
      case InfoRequestV2 => assert SchemaOf(c) == InfoRequestV2Schema();
      case _ =>
    }
  }

  const REQUEST_CLASSES: seq<MessageClass> := [InfoRequestV2, InfoRequest, PlayersRequest, RulesRequest]
  const RESPONSE_CLASSES: seq<MessageClass> := [InfoResponse, PlayersResponse, RulesResponse, GetChallengeResponse]

  /** `cls.decode(packet, default=None)`: a broken message is None, any other exception propagates. */
  function Attempt(c: MessageClass, body: Bytes): Outcome<Option<Message>> {
    match Decode(SchemaOf(c), body, map[])
    case Ok((values, tail)) => Ok(Some(Message(c, values, tail)))
    case Broken => Ok(None)
    case Crash => Crash
  }

  /** The loop of `decode_packet`. */
  function FirstMatch(classes: seq<MessageClass>, body: Bytes): Outcome<Option<Message>> {
    if classes == [] then Ok(None)
    else if Attempt(classes[0], body) == Ok(None) then FirstMatch(classes[1..], body)
    else Attempt(classes[0], body)
  }

  /** `decode_packet`; a broken header is raised to the caller. */
  function DecodePacket(packet: Bytes, classes: seq<MessageClass>): Outcome<Option<Message>> {
    match Decode(HeaderSchema(), packet, map[])
    case Ok((_, body)) => FirstMatch(classes, body)
    case Broken => Broken
    case Crash => Crash
  }

  /** decode_packet with its loop. */
  method DecodeClasses(packet: Bytes, classes: seq<MessageClass>) returns (r: Outcome<Option<Message>>)
    ensures r == DecodePacket(packet, classes)
  {
    var header := Decode(HeaderSchema(), packet, map[]);
    hide Decode, HeaderSchema, Attempt;
    if !header.Ok? {
      return if header.Broken? then Broken else Crash;
    }
    var body := header.value.1;
    assert classes[0..] == classes;
    for i := 0 to |classes|
      invariant FirstMatch(classes, body) == FirstMatch(classes[i..], body)
    {
      assert classes[i..][1..] == classes[i + 1..];
      var message := Attempt(classes[i], body);
      if message != Ok(None) {
        return message;
      }
    }
    return Ok(None);
  }

  const LONG: IntFormat := IntFormat(4, true, false)

  // ---------------------------------------------------------------- the type byte decides

  /** The schema of a class after its type byte. */
  function Remainder(c: MessageClass): (fields: seq<Field>)
    ensures WellFormed(fields)
    ensures SchemaOf(c) == [TypeField(TypeName(c).0, TypeName(c).1, TypeCode(c))] + fields
  {
    hide SchemaOf;
    SchemaHead(c);
    SchemaOf(c)[1..]
  }

  /** Every class is decoded as its type byte and the rest. */
  lemma TypeByteFirst(c: MessageClass, body: Bytes)
    ensures body == [] || body[0] != TypeCode(c) ==> Decode(SchemaOf(c), body, map[]).Broken?
    ensures body != [] && body[0] == TypeCode(c) ==>
      Decode(SchemaOf(c), body, map[]) == Decode(Remainder(c), body[1..], map[TypeName(c).0 := IntV(TypeCode(c))])
  {
    hide *;
    FirstByte(TypeName(c).0, TypeName(c).1, TypeCode(c), Remainder(c), body);
  }

  /** Over all byte strings, two classes can only both be anything but "not this message" when they are the
      two forms of the info request. */
  lemma OneFamily(c: MessageClass, d: MessageClass, body: Bytes)
    requires c != d
    ensures Attempt(c, body) == Ok(None) || Attempt(d, body) == Ok(None)
         || (c == InfoRequest && d == InfoRequestV2) || (c == InfoRequestV2 && d == InfoRequest)
  {
    hide Decode, SchemaOf;
    TypeByteFirst(c, body);
    TypeByteFirst(d, body);
  }

  /** No class but `c` matches. */
  ghost predicate OnlyMatch(c: MessageClass, classes: seq<MessageClass>, body: Bytes) {
    forall d :: d in classes && d != c ==> Attempt(d, body) == Ok(None)
  }

  lemma {:induction false} FirstMatchIsOnly(c: MessageClass, classes: seq<MessageClass>, body: Bytes)
    requires OnlyMatch(c, classes, body)
    ensures FirstMatch(classes, body) == if c in classes then Attempt(c, body) else Ok(None)
  {
    hide Attempt;
    if classes != [] {
      FirstMatchIsOnly(c, classes[1..], body);
    }
  }

  /** Whichever of two lists with the same classes is used, and whatever its order, the result is the same, unless
      both hold the two forms of the info request and the body is readable as the longer one. */
  lemma OrderIrrelevant(cs: seq<MessageClass>, ds: seq<MessageClass>, body: Bytes)
    requires forall c :: c in cs <==> c in ds
    requires InfoRequest in cs && InfoRequestV2 in cs ==> Attempt(InfoRequestV2, body) == Ok(None)
    ensures FirstMatch(cs, body) == FirstMatch(ds, body)
  {
    hide Attempt;
    if c :| c in cs && Attempt(c, body) != Ok(None) {
      forall d | d in cs && d != c ensures Attempt(d, body) == Ok(None) {
        OneFamily(c, d, body);
      }
      FirstMatchIsOnly(c, cs, body);
      FirstMatchIsOnly(c, ds, body);
    } else {
      FirstMatchIsOnly(InfoRequest, cs, body);
      FirstMatchIsOnly(InfoRequest, ds, body);
    }
  }

  // ---------------------------------------------------------------- the two forms of the info request

  lemma InfoPayload(payload: Bytes, more: Bytes, rest: seq<Field>, acc: Record)
    requires 0 !in payload
    requires rest == [] || rest == [OptionalChallenge()]
    ensures WellFormed(rest)
    ensures var fields := [TextField("payload", WithDefault(TextV(SourceEngineQuery())))] + rest;
      && WellFormed(fields)
      && var acc1 := acc["payload" := TextV(payload)];
         Decode(fields, payload + [0] + more, acc) ==
           if rest == [] then Ok((acc1, more))
           else if |more| < 4 then Broken
           else Ok((acc1["challenge" := IntV(Unpack(LONG, more[..4]))], more[4..]))
  {
    FieldByField(rest);
    var f := TextField("payload", WithDefault(TextV(SourceEngineQuery())));
    var buf := payload + [0] + more;
    DecodeCons(f, rest, buf, acc);
    TerminatorOf(payload, more);
    assert buf[..|payload|] == payload && buf[|payload| + 1..] == more;
    if rest != [] {
      DecodeCons(OptionalChallenge(), [], more, acc["payload" := TextV(payload)]);
      assert rest == [OptionalChallenge()] + [];
    }
  }

  function InfoValues(payload: Bytes): Record {
    map["request_type" := IntV(0x54), "payload" := TextV(payload)]
  }

  lemma InfoAttempts(payload: Bytes, more: Bytes)
    requires 0 !in payload
    ensures var body := [0x54] + (payload + [0] + more);
      && Attempt(InfoRequest, body) == Ok(Some(Message(InfoRequest, InfoValues(payload), more)))
      && Attempt(InfoRequestV2, body) ==
           if |more| < 4 then Ok(None)
           else Ok(Some(Message(InfoRequestV2, InfoValues(payload)["challenge" := IntV(Unpack(LONG, more[..4]))],
             more[4..])))
  {
    var body := [0x54] + (payload + [0] + more);
    hide Decode, SchemaOf, Remainder, SourceEngineQuery, InfoValues, WellFormed;
    assert body[1..] == payload + [0] + more;
    InfoFields();
    var acc: Record := map["request_type" := IntV(0x54)];
    InfoPayload(payload, more, [], acc);
    InfoPayload(payload, more, [OptionalChallenge()], acc);
    TypeByteFirst(InfoRequest, body);
    TypeByteFirst(InfoRequestV2, body);
    WithPayload(payload);
  }

  lemma WithPayload(payload: Bytes)
    ensures InfoValues(payload) == map["request_type" := IntV(0x54)]["payload" := TextV(payload)]
  {
  }

  /** The two forms after their type byte. */
  lemma InfoFields()
    ensures TypeName(InfoRequest).0 == TypeName(InfoRequestV2).0 == "request_type"
    ensures TypeCode(InfoRequest) == TypeCode(InfoRequestV2) == 0x54
    ensures Remainder(InfoRequest) == [TextField("payload", WithDefault(TextV(SourceEngineQuery())))] + []
    ensures Remainder(InfoRequestV2) ==
      [TextField("payload", WithDefault(TextV(SourceEngineQuery())))] + [OptionalChallenge()]
  {
    hide SourceEngineQuery;
  }

  /** A body of type 0x54 with `k` bytes after its terminator is the protected form iff k is at least four. */
  lemma InfoForms(payload: Bytes, more: Bytes)
    requires 0 !in payload
    ensures var body := [0x54] + (payload + [0] + more);
      FirstMatch(REQUEST_CLASSES, body) ==
        if |more| >= 4 then
          Ok(Some(Message(InfoRequestV2, InfoValues(payload)["challenge" := IntV(Unpack(LONG, more[..4]))], more[4..])))
        else
          Ok(Some(Message(InfoRequest, InfoValues(payload), more)))
  {
    InfoAttempts(payload, more);
    hide Attempt, InfoValues;
    assert REQUEST_CLASSES[1..][0] == InfoRequest;
  }

  /** Whether the protected form is tried before the plain one. */
  predicate ProtectedFirst(classes: seq<MessageClass>) {
    classes != [] && classes[0] != InfoRequest && (classes[0] == InfoRequestV2 || ProtectedFirst(classes[1..]))
  }

  /** On the body of an info request a list does what the form that it tries first does. */
  lemma {:induction false} FirstFormDecides(classes: seq<MessageClass>, body: Bytes)
    requires InfoRequest in classes && InfoRequestV2 in classes && Attempt(InfoRequestV2, body) != Ok(None)
    ensures FirstMatch(classes, body) == Attempt(if ProtectedFirst(classes) then InfoRequestV2 else InfoRequest, body)
  {
    hide Attempt;
    PlainIfProtected(body);
    if classes[0] != InfoRequest && classes[0] != InfoRequestV2 {
      OneFamily(classes[0], InfoRequestV2, body);
      FirstFormDecides(classes[1..], body);
    }
  }

  /** What can be read as the protected form can be read as the plain one, and is then another message. */
  lemma PlainIfProtected(body: Bytes)
    ensures Attempt(InfoRequestV2, body) != Ok(None) ==>
      Attempt(InfoRequest, body) != Ok(None) && Attempt(InfoRequest, body) != Attempt(InfoRequestV2, body)
  {
    if body != [] && body[0] == 0x54 && Terminator(body[1..]) < |body[1..]| {
      var payload, more := InfoSplit(body);
      InfoAttempts(payload, more);
      hide *;
    } else {
      UnreadableInfo(body);
      hide *;
    }
  }

  /** The only order that matters: any two lists of the same classes with both forms in them agree on a body
      exactly when it cannot be read as the protected form, or both try the same form first. */
  lemma FormsOrderMatters(cs: seq<MessageClass>, ds: seq<MessageClass>, body: Bytes)
    requires forall c :: c in cs <==> c in ds
    requires InfoRequest in cs && InfoRequestV2 in cs
    ensures FirstMatch(cs, body) == FirstMatch(ds, body) <==>
      Attempt(InfoRequestV2, body) == Ok(None) || ProtectedFirst(cs) == ProtectedFirst(ds)
  {
    hide Attempt, FirstMatch, ProtectedFirst;
    if Attempt(InfoRequestV2, body) == Ok(None) {
      OrderIrrelevant(cs, ds, body);
    } else {
      FirstFormDecides(cs, body);
      FirstFormDecides(ds, body);
      PlainIfProtected(body);
    }
  }

  lemma InfoSplit(body: Bytes) returns (payload: Bytes, more: Bytes)
    requires body != [] && body[0] == 0x54 && Terminator(body[1..]) < |body[1..]|
    ensures 0 !in payload && body == [0x54] + (payload + [0] + more)
  {
    var n := Terminator(body[1..]);
    payload, more := body[1..][..n], body[1..][n + 1..];
    assert body[1..] == payload + [0] + more;
  }

  lemma UnreadableInfo(body: Bytes)
    requires body == [] || body[0] != 0x54 || Terminator(body[1..]) == |body[1..]|
    ensures Attempt(InfoRequest, body) == Ok(None) && Attempt(InfoRequestV2, body) == Ok(None)
  {
    TypeByteFirst(InfoRequest, body);
    TypeByteFirst(InfoRequestV2, body);
    var p := TextField("payload", WithDefault(TextV(SourceEngineQuery())));
    InfoFields();
    hide SchemaOf, Remainder, SourceEngineQuery, Decode;
    if body != [] {
      var acc: Record := map["request_type" := IntV(0x54)];
      FieldByField([OptionalChallenge()]);
      DecodeCons(p, [], body[1..], acc);
      DecodeCons(p, [OptionalChallenge()], body[1..], acc);
    }
  }

  // ---------------------------------------------------------------- requests and challenges

  /** `cls(challenge=...).encode()`, or `cls().encode()`. */
  function EncodeRequest(c: MessageClass, challenge: Option<int>): Outcome<Bytes> {
    EncodeMessage(true, SchemaOf(c), if challenge.Some? then map["challenge" := IntV(challenge.value)] else map[],
      map[]).0
  }

  predicate IsLong(k: int) {
    -0x8000_0000 <= k < 0x8000_0000
  }

  function Long(k: int): (b: Bytes)
    requires IsLong(k)
    ensures |b| == 4 && Unpack(LONG, b) == k
  {
    LongRange(k);
    UnpackInvertsPack(LONG, k);
    Pack(LONG, k).value
  }

  lemma PlainPacket(body: Bytes, classes: seq<MessageClass>)
    ensures DecodePacket(NO_SPLIT_HEADER + body, classes) == FirstMatch(classes, body)
  {
    NoSplitHeader();
    HeaderEncodes(NO_SPLIT);
    HeaderValue(NO_SPLIT_HEADER + body);
    assert (NO_SPLIT_HEADER + body)[..4] == NO_SPLIT_HEADER && (NO_SPLIT_HEADER + body)[4..] == body;
  }

  /** Players requests, rules requests and challenge responses are a type byte and a challenge. */
  predicate IsShort(c: MessageClass) {
    c == PlayersRequest || c == RulesRequest || c == GetChallengeResponse
  }

  lemma ShortSchema(c: MessageClass)
    requires IsShort(c)
    ensures TypeName(c).1 && Remainder(c) == [LongField("challenge")]
    ensures SchemaOf(c) == [TypeField(TypeName(c).0, true, TypeCode(c))] + [LongField("challenge")]
  {
    hide InfoRequestSchema, InfoRequestV2Schema, InfoResponseSchema, PlayersSchema, RulesResponseSchema, WellFormed;
  }

  lemma ChallengeField(k: int, more: Bytes, acc: Record)
    requires IsLong(k)
    ensures WellFormed([LongField("challenge")])
    ensures Encode([LongField("challenge")], map["challenge" := IntV(k)], map[]) == (Ok(Long(k)), map[])
    ensures Encode([LongField("challenge")], map[], map[]) == (Crash, map[])
    ensures Decode([LongField("challenge")], Long(k) + more, acc) == Ok((acc["challenge" := IntV(k)], more))
  {
    var l := LongField("challenge");
    LongRange(k);
    EncodeCons(l, [], map["challenge" := IntV(k)], map[]);
    EncodeCons(l, [], map[], map[]);
    DecodeCons(l, [], Long(k) + more, acc);
    assert [l] == [l] + [] && Long(k) + [] == Long(k);
    assert (Long(k) + more)[..4] == Long(k) && (Long(k) + more)[4..] == more;
  }

  lemma ShortEncodes(c: MessageClass, k: int)
    requires IsShort(c) && IsLong(k)
    ensures EncodeRequest(c, Some(k)) == Ok(NO_SPLIT_HEADER + ([TypeCode(c)] + Long(k)))
    ensures EncodeRequest(c, None) == Crash
  {
    hide *;
    ShortSchema(c);
    TypeNames(c);
    ChallengeField(k, [], map[]);
    var t, rest := TypeField(TypeName(c).0, true, TypeCode(c)), [LongField("challenge")];
    var values: Record := map["challenge" := IntV(k)];
    TypeByteEncodes(TypeName(c).0, TypeCode(c), values, map[]);
    TypeByteEncodes(TypeName(c).0, TypeCode(c), map[], map[]);
    EncodeCons(t, rest, values, map[]);
    EncodeCons(t, rest, map[], map[]);
    RequestEncodes(c, Some(k));
    RequestEncodes(c, None);
  }

  lemma RequestEncodes(c: MessageClass, challenge: Option<int>)
    ensures
      var encoded := Encode(SchemaOf(c), if challenge.Some? then map["challenge" := IntV(challenge.value)] else map[],
        map[]).0;
      EncodeRequest(c, challenge) == if encoded.Ok? then Ok(NO_SPLIT_HEADER + encoded.value) else encoded
  {
    hide Encode, SchemaOf;
  }

  lemma TypeNames(c: MessageClass)
    ensures TypeName(c).0 != "challenge"
  {
  }

  lemma ShortDecodes(c: MessageClass, k: int, more: Bytes)
    requires IsShort(c) && IsLong(k)
    ensures Attempt(c, [TypeCode(c)] + (Long(k) + more)) ==
      Ok(Some(Message(c, map[TypeName(c).0 := IntV(TypeCode(c)), "challenge" := IntV(k)], more)))
  {
    var body := [TypeCode(c)] + (Long(k) + more);
    assert body[1..] == Long(k) + more && body[0] == TypeCode(c);
    var acc: Record := map[TypeName(c).0 := IntV(TypeCode(c))];
    ShortSchema(c);
    hide SchemaOf, Remainder, Decode, TypeCode, TypeName, Long;
    TypeByteFirst(c, body);
    ChallengeField(k, more, acc);
    assert acc["challenge" := IntV(k)] == map[TypeName(c).0 := IntV(TypeCode(c)), "challenge" := IntV(k)];
  }

  /** Whatever list of classes with distinct families it is given to, an encoded challenge message comes back as
      its own class with its own challenge. */
  lemma ShortRoundTrip(c: MessageClass, k: int, classes: seq<MessageClass>)
    requires IsShort(c) && IsLong(k) && c in classes
    ensures EncodeRequest(c, Some(k)).Ok?
    ensures DecodePacket(EncodeRequest(c, Some(k)).value, classes) ==
      Ok(Some(Message(c, map[TypeName(c).0 := IntV(TypeCode(c)), "challenge" := IntV(k)], [])))
  {
    hide EncodeRequest, Attempt, FirstMatch, DecodePacket, TypeName, TypeCode, Long, Decode, SchemaOf, Remainder;
    ShortEncodes(c, k);
    ShortDecodes(c, k, []);
    assert Long(k) + [] == Long(k);
    var body := [TypeCode(c)] + Long(k);
    PlainPacket(body, classes);
    forall d | d in classes && d != c ensures Attempt(d, body) == Ok(None) {
      OneFamily(c, d, body);
    }
    FirstMatchIsOnly(c, classes, body);
  }

  /** The protected info request comes back with its challenge; without a challenge, and for the plain class, it
      comes back as the plain info request. */
  lemma InfoRoundTrip(challenge: Option<int>)
    requires challenge.Some? ==> IsLong(challenge.value)
    ensures EncodeRequest(InfoRequestV2, challenge).Ok? && EncodeRequest(InfoRequest, challenge).Ok?
    ensures challenge.Some? ==>
      DecodePacket(EncodeRequest(InfoRequestV2, challenge).value, REQUEST_CLASSES) ==
        Ok(Some(Message(InfoRequestV2, InfoValues(SourceEngineQuery())["challenge" := IntV(challenge.value)], [])))
    ensures challenge.None? ==>
      DecodePacket(EncodeRequest(InfoRequestV2, challenge).value, REQUEST_CLASSES) ==
        Ok(Some(Message(InfoRequest, InfoValues(SourceEngineQuery()), [])))
    ensures DecodePacket(EncodeRequest(InfoRequest, challenge).value, REQUEST_CLASSES) ==
      Ok(Some(Message(InfoRequest, InfoValues(SourceEngineQuery()), [])))
  {
    assert challenge.Some? ==> IsLong(challenge.value);
    hide *;
    InfoEncodes(challenge);
    InfoPacket(SourceEngineQuery(), []);
    if challenge.Some? {
      InfoPacket(SourceEngineQuery(), Long(challenge.value));
      FourBytes(Long(challenge.value));
    }
  }

  lemma FourBytes(b: Bytes)
    ensures |b| == 4 ==> b[..4] == b && b[4..] == []
  {
  }

  lemma InfoPacket(payload: Bytes, more: Bytes)
    requires 0 !in payload
    ensures DecodePacket(NO_SPLIT_HEADER + ([0x54] + (payload + [0] + more)), REQUEST_CLASSES) ==
      if |more| >= 4 then
        Ok(Some(Message(InfoRequestV2, InfoValues(payload)["challenge" := IntV(Unpack(LONG, more[..4]))], more[4..])))
      else
        Ok(Some(Message(InfoRequest, InfoValues(payload), more)))
  {
    hide *;
    InfoForms(payload, more);
    PlainPacket([0x54] + (payload + [0] + more), REQUEST_CLASSES);
  }

  /** The fields of an info request that gives at most a challenge. */
  lemma InfoFieldsEncode(challenge: Option<int>)
    requires challenge.Some? ==> IsLong(challenge.value)
    ensures
      var values: Record := if challenge.Some? then map["challenge" := IntV(challenge.value)] else map[];
      && "request_type" !in values
      && EncodeField(TextField("payload", WithDefault(TextV(SourceEngineQuery()))), values, map[])
           == (Ok(SourceEngineQuery() + [0]), map[])
      && EncodeField(OptionalChallenge(), values, map[]) ==
        (Ok(if challenge.Some? then Long(challenge.value) else []), map[])
  {
    if challenge.Some? {
      LongRange(challenge.value);
    }
    hide SourceEngineQuery;
  }

  lemma InfoSchemas()
    ensures
      var t, p := TypeField("request_type", true, 0x54), TextField("payload", WithDefault(TextV(SourceEngineQuery())));
      && SchemaOf(InfoRequest) == [t] + ([p] + [])
      && SchemaOf(InfoRequestV2) == [t] + ([p] + ([OptionalChallenge()] + []))
      && WellFormedField(t) && WellFormedField(p) && WellFormedField(OptionalChallenge())
      && WellFormed([p] + ([OptionalChallenge()] + [])) && WellFormed([p] + []) &&
        WellFormed([OptionalChallenge()] + [])
  {
    var p := TextField("payload", WithDefault(TextV(SourceEngineQuery())));
    FieldByField([p] + ([OptionalChallenge()] + []));
    FieldByField([p] + []);
    FieldByField([OptionalChallenge()] + []);
    hide SourceEngineQuery;
  }

  lemma InfoEncodes(challenge: Option<int>)
    requires challenge.Some? ==> IsLong(challenge.value)
    ensures EncodeRequest(InfoRequestV2, challenge) ==
      Ok(NO_SPLIT_HEADER
        + ([0x54] + (SourceEngineQuery() + [0] + if challenge.Some? then Long(challenge.value) else [])))
    ensures EncodeRequest(InfoRequest, challenge) == Ok(NO_SPLIT_HEADER + ([0x54] + (SourceEngineQuery() + [0] + [])))
  {
    var more := if challenge.Some? then Long(challenge.value) else [];
    assert more + [] == more;
    hide *;
    var values: Record := if challenge.Some? then map["challenge" := IntV(challenge.value)] else map[];
    var t, p := TypeField("request_type", true, 0x54), TextField("payload", WithDefault(TextV(SourceEngineQuery())));
    InfoSchemas();
    InfoFieldsEncode(challenge);
    TypeByteEncodes("request_type", 0x54, values, map[]);
    NothingEncodes(values);
    EncodeCons(p, [], values, map[]);
    EncodeCons(t, [p] + [], values, map[]);
    EncodeCons(OptionalChallenge(), [], values, map[]);
    EncodeCons(p, [OptionalChallenge()] + [], values, map[]);
    EncodeCons(t, [p] + ([OptionalChallenge()] + []), values, map[]);
    RequestEncodes(InfoRequest, challenge);
    RequestEncodes(InfoRequestV2, challenge);
  }

  lemma NothingEncodes(values: Record)
    ensures WellFormed([]) && Encode([], values, map[]) == (Ok([]), map[])
  {
  }
}
