/** The info response in plain bytes. */
module InfoResponses {
  import opened Outcomes
  import opened Wire
  import opened Codec
  import opened Messages
  import opened Reading
  import opened Dispatch

  const TEXTS: seq<string> := ["server_name", "map", "folder", "game"]

  /** The app id in the bytes 0 and 1, and the three counts in the bytes 2, 3 and 4. */
  function WithCounts(acc: Record, b: Bytes): Record
    requires |b| >= 5
  {
    acc["app_id" := IntV(ShortOf(b[..2]))]["player_count" := IntV(b[2])]["max_players" := IntV(b[3])]
      ["bot_count" := IntV(b[4])]
  }

  predicate IsServerType(id: int) {
    id == 100 || id == 108 || id == 112
  }

  predicate IsPlatform(id: int) {
    id == 108 || id == 109 || id == 111 || id == 119
  }

  /** Server type, platform and the two flags in the bytes 0 to 3, and the version. */
  function WithFlags(acc: Record, b: Bytes): Record
    requires |b| >= 4
  {
    acc["server_type" := IdV(ServerType, b[0])]["platform" := IdV(Platform, b[1])]["password_protected" := IntV(b[2])]
      ["vac_enabled" := IntV(b[3])]
  }

  /** The end of an info response, from its server type on. */
  function ReadFlags(acc: Record, b: Bytes): Outcome<(Record, Bytes)> {
    if b == [] then Broken
    else if !IsServerType(b[0]) then Crash
    else if |b| < 2 then Broken
    else if !IsPlatform(b[1]) then Crash
    else if |b| < 4 then Broken
    else match ReadText(b[4..])
      case Some((version, tail)) => Ok((WithFlags(acc, b)["version" := TextV(version)], tail))
      case None => Broken
  }

  /** A whole info response: type byte, protocol, four texts, app id and counts, and the rest. */
  function ReadInfo(body: Bytes): Outcome<(Record, Bytes)> {
    if |body| < 2 || body[0] != 0x49 then Broken else
    match ReadTexts(TEXTS, body[2..], map["response_type" := IntV(0x49)]["protocol" := IntV(body[1])])
    case Some((acc, rest)) => if |rest| < 5 then Broken else ReadFlags(WithCounts(acc, rest), rest[5..])
    case None => Broken
  }

  lemma NamesRead(buf: Bytes, acc: Record)
    ensures Decode(InfoNames(), buf, acc) ==
      if buf == [] then Broken
      else match ReadTexts(TEXTS, buf[1..], acc["protocol" := IntV(buf[0])]) case Some(r) => Ok(r) case None => Broken
  {
    NamesFields();
    hide *;
    ByteStep("protocol", TextFields(TEXTS), buf, acc);
    if buf != [] {
      TextsRead(TEXTS, buf[1..], acc["protocol" := IntV(buf[0])]);
    }
  }

  lemma NamesFields()
    ensures InfoNames() == [ByteField("protocol")] + TextFields(TEXTS)
  {
    assert TEXTS[1..] == ["map", "folder", "game"] && ["map", "folder", "game"][1..] == ["folder", "game"];
    assert ["folder", "game"][1..] == ["game"] && ["game"][1..] == [];
    assert TextFields(["folder", "game"]) == [StringField("folder"), StringField("game")];
    assert TextFields(TEXTS) ==
      [StringField("server_name"), StringField("map")] + TextFields(["folder", "game"]);
    hide WellFormed;
  }

  lemma CountsRead(buf: Bytes, acc: Record)
    ensures Decode(InfoCounts(), buf, acc) == if |buf| < 5 then Broken else Ok((WithCounts(acc, buf), buf[5..]))
  {
    CountsFields();
    hide InfoCounts, ShortOf, Decode;
    Nothing(buf, acc);
    var bots := [ByteField("bot_count")] + [];
    var most := [ByteField("max_players")] + bots;
    ByteStep("bot_count", [], [], map[]);
    ByteStep("max_players", bots, [], map[]);
    ByteStep("player_count", most, [], map[]);
    ShortStep("app_id", [ByteField("player_count")] + most, buf, acc);
    if |buf| >= 2 {
      var acc1 := acc["app_id" := IntV(ShortOf(buf[..2]))];
      ByteStep("player_count", most, buf[2..], acc1);
      if |buf| >= 3 {
        DropTwice(buf, 2, 1);
        var acc2 := acc1["player_count" := IntV(buf[2])];
        ByteStep("max_players", bots, buf[3..], acc2);
        if |buf| >= 4 {
          DropTwice(buf, 3, 1);
          var acc3 := acc2["max_players" := IntV(buf[3])];
          ByteStep("bot_count", [], buf[4..], acc3);
          if |buf| >= 5 {
            DropTwice(buf, 4, 1);
            Nothing(buf[5..], acc3["bot_count" := IntV(buf[4])]);
          }
        }
      }
    }
  }

  lemma Nothing(buf: Bytes, acc: Record)
    ensures WellFormed([]) && Decode([], buf, acc) == Ok((acc, buf))
  {
  }

  lemma CountsFields()
    ensures InfoCounts() ==
      [ShortField("app_id")] + ([ByteField("player_count")] + ([ByteField("max_players")] + ([ByteField("bot_count")] +
        [])))
  {
  }

  /** The last three fields. */
  function VersionFields(): (fields: seq<Field>)
    ensures WellFormed(fields)
    ensures fields == [ByteField("password_protected")] + ([ByteField("vac_enabled")] + TextFields(["version"]))
  {
    hide *;
    ByteStep("vac_enabled", TextFields(["version"]), [], map[]);
    ByteStep("password_protected", [ByteField("vac_enabled")] + TextFields(["version"]), [], map[]);
    [ByteField("password_protected")] + ([ByteField("vac_enabled")] + TextFields(["version"]))
  }

  lemma VersionRead(buf: Bytes, acc: Record)
    ensures Decode(VersionFields(), buf, acc) ==
      if |buf| < 2 then Broken
      else match ReadText(buf[2..])
        case Some((version, tail)) =>
          Ok((acc["password_protected" := IntV(buf[0])]["vac_enabled" := IntV(buf[1])]["version" := TextV(version)],
            tail))
        case None => Broken
  {
    hide *;
    ByteStep("vac_enabled", TextFields(["version"]), [], map[]);
    ByteStep("password_protected", [ByteField("vac_enabled")] + TextFields(["version"]), buf, acc);
    if buf != [] {
      var acc1 := acc["password_protected" := IntV(buf[0])];
      ByteStep("vac_enabled", TextFields(["version"]), buf[1..], acc1);
      if |buf| >= 2 {
        DropTwice(buf, 1, 1);
        OneText("version", buf[2..], acc1["vac_enabled" := IntV(buf[1])]);
      }
    }
  }

  lemma OneText(name: string, buf: Bytes, acc: Record)
    ensures Decode(TextFields([name]), buf, acc) ==
      match ReadText(buf) case Some((text, tail)) => Ok((acc[name := TextV(text)], tail)) case None => Broken
  {
    TextsRead([name], buf, acc);
    hide Decode, TextFields, ReadText;
  }

  lemma FlagsFields()
    ensures InfoFlags() ==
      [KindField("server_type", ServerType)] + ([KindField("platform", Platform)] + VersionFields())
  {
    assert ["version"][1..] == [];
    hide WellFormed;
  }

  lemma FlagsRead(buf: Bytes, acc: Record)
    ensures Decode(InfoFlags(), buf, acc) == ReadFlags(acc, buf)
  {
    FlagsFields();
    hide InfoFlags, VersionFields, Decode, ReadText;
    PlatformStep("platform", VersionFields(), [], map[]);
    ServerTypeStep("server_type", [KindField("platform", Platform)] + VersionFields(), buf, acc);
    if |buf| >= 1 && IsServerType(buf[0]) {
      var acc1 := acc["server_type" := IdV(ServerType, buf[0])];
      PlatformStep("platform", VersionFields(), buf[1..], acc1);
      if |buf| >= 2 && IsPlatform(buf[1]) {
        DropTwice(buf, 1, 1);
        VersionRead(buf[2..], acc1["platform" := IdV(Platform, buf[1])]);
        if |buf| >= 4 {
          DropTwice(buf, 2, 2);
        }
      }
    }
  }

  /** How every buffer is decoded as an info response: what its bytes say is `ReadInfo`. */
  lemma InfoRead(body: Bytes)
    ensures Decode(InfoResponseSchema(), body, map[]) == ReadInfo(body)
  {
    assert InfoResponseSchema() == [TypeField("response_type", false, 0x49)] + InfoBody();
    hide *;
    FirstByte("response_type", false, 0x49, InfoBody(), body);
    if body != [] && body[0] == 0x49 {
      BodyRead(body[1..], map["response_type" := IntV(0x49)]);
    }
    AsRead(body);
  }

  /** An info response after its type byte. */
  function ReadBody(buf: Bytes, acc: Record): Outcome<(Record, Bytes)> {
    if buf == [] then Broken else
    match ReadTexts(TEXTS, buf[1..], acc["protocol" := IntV(buf[0])])
    case Some((acc1, rest)) => if |rest| < 5 then Broken else ReadFlags(WithCounts(acc1, rest), rest[5..])
    case None => Broken
  }

  lemma AsRead(body: Bytes)
    ensures ReadInfo(body) ==
      if body == [] || body[0] != 0x49 then Broken else ReadBody(body[1..], map["response_type" := IntV(0x49)])
  {
    hide ReadTexts, ReadFlags, WithCounts;
    if |body| >= 2 {
      DropTwice(body, 1, 1);
    }
  }

  lemma BodyRead(buf: Bytes, acc: Record)
    ensures Decode(InfoBody(), buf, acc) == ReadBody(buf, acc)
  {
    assert InfoBody() == InfoNames() + (InfoCounts() + InfoFlags());
    hide InfoBody, InfoNames, InfoCounts, InfoFlags, Decode, ReadTexts, ReadFlags, WithCounts, WellFormed;
    Concatenated(InfoCounts(), InfoFlags());
    DecodeBoth(InfoNames(), InfoCounts() + InfoFlags(), buf, acc);
    NamesRead(buf, acc);
    if buf != [] && ReadTexts(TEXTS, buf[1..], acc["protocol" := IntV(buf[0])]).Some? {
      var (acc1, rest) := ReadTexts(TEXTS, buf[1..], acc["protocol" := IntV(buf[0])]).value;
      DecodeBoth(InfoCounts(), InfoFlags(), rest, acc1);
      CountsRead(rest, acc1);
      if |rest| >= 5 {
        FlagsRead(rest[5..], WithCounts(acc1, rest));
      }
    }
  }

  /** The same for a datagram that a client decodes: no other class reads a packet with this type byte. */
  lemma InfoPacketRead(body: Bytes)
    requires body != [] && body[0] == 0x49
    ensures DecodePacket(NO_SPLIT_HEADER + body, RESPONSE_CLASSES) ==
      match ReadInfo(body)
      case Ok((values, tail)) => Ok(Some(Message(InfoResponse, values, tail)))
      case Broken => Ok(None)
      case Crash => Crash
  {
    assert InfoResponse in RESPONSE_CLASSES && SchemaOf(InfoResponse) == InfoResponseSchema();
    hide Decode, DecodePacket, SchemaOf, ReadInfo, FirstMatch, HeaderSchema, InfoResponseSchema, RESPONSE_CLASSES;
    PlainPacket(body, RESPONSE_CLASSES);
    InfoRead(body);
    forall d | d in RESPONSE_CLASSES && d != InfoResponse ensures Attempt(d, body) == Ok(None) {
      NotInfo(d, body);
    }
    FirstMatchIsOnly(InfoResponse, RESPONSE_CLASSES, body);
  }

  lemma NotInfo(d: MessageClass, body: Bytes)
    requires body != [] && body[0] == 0x49 && d != InfoResponse
    ensures Attempt(d, body) == Ok(None)
  {
    hide Decode, SchemaOf, Remainder, TypeName;
    TypeByteFirst(d, body);
  }

  /** The values of an info response with these parts; `numbers` are app id, counts, server type, platform, flags. */
  function InfoResponseValues(
      protocol: int, server: Bytes, level: Bytes, folder: Bytes, game: Bytes, numbers: Bytes, version: Bytes): Record
    requires |numbers| == 9
  {
    map["response_type" := IntV(0x49), "protocol" := IntV(protocol), "server_name" := TextV(server),
        "map" := TextV(level), "folder" := TextV(folder), "game" := TextV(game),
        "app_id" := IntV(ShortOf(numbers[..2])), "player_count" := IntV(numbers[2]), "max_players" := IntV(numbers[3]),
        "bot_count" := IntV(numbers[4]), "server_type" := IdV(ServerType, numbers[5]),
        "platform" := IdV(Platform, numbers[6]), "password_protected" := IntV(numbers[7]),
        "vac_enabled" := IntV(numbers[8]), "version" := TextV(version)]
  }

  lemma FourTexts(a: Bytes, b: Bytes, c: Bytes, d: Bytes, rest: Bytes, acc: Record)
    requires 0 !in a && 0 !in b && 0 !in c && 0 !in d
    ensures ReadTexts(TEXTS, a + [0] + (b + [0] + (c + [0] + (d + [0] + rest))), acc) ==
      Some((acc["server_name" := TextV(a)]["map" := TextV(b)]["folder" := TextV(c)]["game" := TextV(d)], rest))
  {
    assert TEXTS == ["server_name"] + (["map"] + (["folder"] + (["game"] + [])));
    hide *;
    NextText("server_name", ["map"] + (["folder"] + (["game"] + [])), a, b + [0] + (c + [0] + (d + [0] + rest)), acc);
    var acc1 := acc["server_name" := TextV(a)];
    NextText("map", ["folder"] + (["game"] + []), b, c + [0] + (d + [0] + rest), acc1);
    var acc2 := acc1["map" := TextV(b)];
    NextText("folder", ["game"] + [], c, d + [0] + rest, acc2);
    NextText("game", [], d, rest, acc2["folder" := TextV(c)]);
    NoTexts(rest, acc2["folder" := TextV(c)]["game" := TextV(d)]);
  }

  lemma NextText(name: string, names: seq<string>, text: Bytes, rest: Bytes, acc: Record)
    requires 0 !in text
    ensures ReadTexts([name] + names, text + [0] + rest, acc) == ReadTexts(names, rest, acc[name := TextV(text)])
  {
    ReadTextIs(text, rest);
    assert ([name] + names)[1..] == names;
    hide ReadText;
  }

  lemma NoTexts(buf: Bytes, acc: Record)
    ensures ReadTexts([], buf, acc) == Some((acc, buf))
  {
  }

  lemma Opening(protocol: Byte, names: Bytes)
    ensures
      var body := [0x49] + ([protocol] + names);
      ReadInfo(body) ==
        match ReadTexts(TEXTS, names, map["response_type" := IntV(0x49)]["protocol" := IntV(protocol)])
        case Some((acc, rest)) => if |rest| < 5 then Broken else ReadFlags(WithCounts(acc, rest), rest[5..])
        case None => Broken
  {
    var body := [0x49] + ([protocol] + names);
    assert body[2..] == names && body[1] == protocol;
    hide ReadTexts, ReadFlags, WithCounts;
  }

  lemma AfterNames(
      protocol: int, server: Bytes, level: Bytes, folder: Bytes, game: Bytes, numbers: Bytes, version: Bytes,
      tail: Bytes)
    requires 0 !in version && |numbers| == 9
    ensures
      var after := numbers + (version + [0] + tail);
      var acc := map["response_type" := IntV(0x49)]["protocol" := IntV(protocol)]["server_name" := TextV(server)]
        ["map" := TextV(level)]["folder" := TextV(folder)]["game" := TextV(game)];
      |after| >= 5 && ReadFlags(WithCounts(acc, after), after[5..]) ==
        if IsServerType(numbers[5]) && IsPlatform(numbers[6]) then
          Ok((InfoResponseValues(protocol, server, level, folder, game, numbers, version), tail))
        else Crash
  {
    var after := numbers + (version + [0] + tail);
    ReadTextIs(version, tail);
    assert after[..2] == numbers[..2] && after[5..][4..] == version + [0] + tail;
    hide ReadText, ShortOf;
  }

  /** An info response of any parts: it is read as exactly them, with what follows left over, unless its server type or
      its platform is none; then the ValueError of those classes is raised. */
  lemma InfoDecode(
      protocol: Byte, server: Bytes, level: Bytes, folder: Bytes, game: Bytes, numbers: Bytes, version: Bytes,
      tail: Bytes)
    requires 0 !in server && 0 !in level && 0 !in folder && 0 !in game && 0 !in version && |numbers| == 9
    ensures
      var names := server + [0] + (level + [0] + (folder + [0] + (game + [0] + (numbers + (version + [0] + tail)))));
      Decode(InfoResponseSchema(), [0x49] + ([protocol] + names), map[]) ==
        if IsServerType(numbers[5]) && IsPlatform(numbers[6]) then
          Ok((InfoResponseValues(protocol, server, level, folder, game, numbers, version), tail))
        else Crash
  {
    hide *;
    var after := numbers + (version + [0] + tail);
    var names := server + [0] + (level + [0] + (folder + [0] + (game + [0] + after)));
    var body := [0x49] + ([protocol] + names);
    InfoRead(body);
    FourTexts(server, level, folder, game, after, map["response_type" := IntV(0x49)]["protocol" := IntV(protocol)]);
    Opening(protocol, names);
    AfterNames(protocol, server, level, folder, game, numbers, version, tail);
  }
}
