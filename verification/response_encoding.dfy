/** Encoding responses that were decoded. */
module ResponseEncoding {
  import opened Outcomes
  import opened Wire
  import opened Codec
  import opened CodecLaws
  import opened CodecEncodable
  import opened Messages
  import opened Players
  import opened Listings

  // ---------------------------------------------------------------- info

  /** The names in an info response, in order. */
  const INFO_NAMES: seq<string> :=
    ["response_type", "protocol", "server_name", "map", "folder", "game", "app_id", "player_count", "max_players",
     "bot_count", "server_type", "platform", "password_protected", "vac_enabled", "version"]

  lemma InfoNamesDiffer()
    ensures |INFO_NAMES| == 15 && forall i, j :: 0 <= i < j < |INFO_NAMES| ==> INFO_NAMES[i] != INFO_NAMES[j]
  {
  }

  /** The fields are scalars with these names. */
  predicate Named(fields: seq<Field>, names: seq<string>) {
    |fields| == |names| && forall i :: 0 <= i < |fields| ==> !fields[i].ArrayField? && fields[i].name == names[i]
  }

  lemma NamedNext(front: seq<Field>, back: seq<Field>, a: nat, b: nat)
    requires a <= b <= |INFO_NAMES| && Named(front, INFO_NAMES[a..b]) && Named(back, INFO_NAMES[b..])
    ensures Named(front + back, INFO_NAMES[a..])
  {
    hide INFO_NAMES;
  }

  lemma InfoNamed()
    ensures Named(InfoResponseSchema(), INFO_NAMES)
  {
    var first := [TypeField("response_type", false, 0x49)];
    assert Named(first, INFO_NAMES[0..1]);
    assert InfoResponseSchema() == first + (InfoNames() + (InfoCounts() + InfoFlags()));
    hide *;
    InfoNamesDiffer();
    InfoParts();
    NamedNext(InfoCounts(), InfoFlags(), 6, 10);
    NamedNext(InfoNames(), InfoCounts() + InfoFlags(), 1, 6);
    NamedNext(first, InfoNames() + (InfoCounts() + InfoFlags()), 0, 1);
    assert INFO_NAMES[0..] == INFO_NAMES;
  }

  lemma InfoParts()
    ensures Named(InfoNames(), INFO_NAMES[1..6]) && Named(InfoCounts(), INFO_NAMES[6..10])
    ensures Named(InfoFlags(), INFO_NAMES[10..])
  {
    hide WellFormed;
  }

  lemma {:induction false} ScalarsUnambiguous(fields: seq<Field>, names: seq<string>, seen: set<string>)
    requires Named(fields, names) && forall i, j :: 0 <= i < j < |names| ==> names[i] != names[j]
    requires forall i :: 0 <= i < |names| ==> names[i] !in seen
    ensures Unambiguous(fields, seen)
    decreases |fields|
  {
    if |fields| > 0 {
      ScalarsUnambiguous(fields[1..], names[1..], seen + {fields[0].name});
    }
  }

  lemma {:induction false} OneWayAfter(front: seq<Field>, back: seq<Field>)
    requires forall i :: 0 <= i < |front| ==> !front[i].ArrayField? && !OneWay(front[i])
    ensures FirstOneWay(front + back) == FirstOneWay(back)
  {
    if front == [] {
      assert front + back == back;
    } else {
      OneWayAfter(front[1..], back);
      assert (front + back)[1..] == front[1..] + back;
    }
  }

  lemma InfoOneWay()
    ensures FirstOneWay(InfoResponseSchema()) == Some(KindField("server_type", ServerType))
  {
    hide WellFormed, FirstOneWay;
    OneWayAfter([TypeField("response_type", false, 0x49)], InfoBody());
    OneWayAfter(InfoNames(), InfoCounts() + InfoFlags());
    OneWayAfter(InfoCounts(), InfoFlags());
    FlagsOneWay();
  }

  lemma FlagsOneWay()
    ensures FirstOneWay(InfoFlags()) == Some(KindField("server_type", ServerType))
  {
  }

  /** A decoded info response is never encoded again: its server type is an object. */
  lemma DecodedInfoNeverEncodes(buf: Bytes, mins: Minimums)
    requires Decode(InfoResponseSchema(), buf, map[]).Ok?
    ensures Encode(InfoResponseSchema(), Decode(InfoResponseSchema(), buf, map[]).value.0, mins).0.Broken?
  {
    assert KindField("server_type", ServerType).IntField?;
    hide *;
    InfoNamed();
    InfoNamesDiffer();
    ScalarsUnambiguous(InfoResponseSchema(), INFO_NAMES, {});
    InfoOneWay();
    OneWayFails(InfoResponseSchema(), buf, map[], {}, Decode(InfoResponseSchema(), buf, map[]).value.0, mins);
  }

  // ---------------------------------------------------------------- master server

  /** The predicates on schemas, one field at a time. */
  lemma FieldFirst(f: Field, rest: seq<Field>, seen: set<string>, values: Record, mins: Minimums)
    ensures Unambiguous([f] + rest, seen) <==>
      f.name !in seen && (f.ArrayField? ==> Unambiguous(f.element, {})) && Unambiguous(rest, seen + {f.name})
    ensures Reencodable([f] + rest, values) <==> ReencodableField(f, values) && Reencodable(rest, values)
    ensures PacketElements([f] + rest, values) == PacketElementsOf(f, values) + PacketElements(rest, values)
    ensures EmptiesStored([f] + rest, values, mins) <==>
      EmptyAllowed(f, values, mins) && EmptiesStored(rest, values, mins)
    ensures Flat([f] + rest) <==>
      (f.ArrayField? ==> Closures(f.element) == {} && f.closure !in Closures(rest)) && Flat(rest)
  {
    assert ([f] + rest)[1..] == rest;
    hide ReencodableField, PacketElementsOf, EmptyAllowed, Closures;
  }

  /** A schema of two scalars and an array. */
  lemma TwoAndArray(c: Field, d: Field, f: Field, values: Record, mins: Minimums)
    requires !c.ArrayField? && !d.ArrayField? && f.ArrayField? && Unambiguous(f.element, {})
    requires c.name != d.name && f.name != c.name && f.name != d.name
    ensures Unambiguous([c, d, f], {})
    ensures Closures(f.element) == {} ==> Flat([c, d, f])
    ensures !OneWay(c) && !OneWay(d) ==> (Reencodable([c, d, f], values) <==> ReencodableField(f, values))
    ensures PacketElements([c, d, f], values) == PacketElementsOf(f, values)
    ensures EmptiesStored([c, d, f], values, mins) <==> EmptyAllowed(f, values, mins)
  {
    var seen1 := {} + {c.name};
    var seen2 := seen1 + {d.name};
    FieldFirst(c, [d, f], {}, values, mins);
    FieldFirst(d, [f], seen1, values, mins);
    FieldFirst(f, [], seen2, values, mins);
    assert [c] + [d, f] == [c, d, f] && [d] + [f] == [d, f] && [f] + [] == [f];
    hide Unambiguous, Reencodable, PacketElements, EmptiesStored, Flat;
    Nothing(seen2 + {f.name}, values, mins);
  }

  lemma Nothing(seen: set<string>, values: Record, mins: Minimums)
    ensures Unambiguous([], seen) && Flat([]) && Closures([]) == {}
    ensures Reencodable([], values) && PacketElements([], values) == 0 && EmptiesStored([], values, mins)
  {
  }

  lemma AddressesUnambiguous()
    ensures Unambiguous(MasterServerResponseSchema(), {})
    ensures FirstOneWay(MasterServerResponseSchema()) == Some(AddressField("start_host"))
  {
    var host, port, list := AddressField("start_host"), PortField("start_port"), AddressesField();
    assert MasterServerResponseSchema() == [host, port, list];
    ScalarsUnambiguous(AddressEntrySchema(), ["host", "port"], {});
    TwoAndArray(host, port, list, map[], map[]);
    hide WellFormed, Unambiguous;
  }

  /** Nor is a decoded master-server response, whatever addresses it holds: an address field has no format. */
  lemma DecodedAddressesNeverEncode(buf: Bytes, mins: Minimums)
    requires Decode(MasterServerResponseSchema(), buf, map[]).Ok?
    ensures
      var values := Decode(MasterServerResponseSchema(), buf, map[]).value.0;
      Encode(MasterServerResponseSchema(), values, mins).0.Crash?
  {
    assert AddressField("start_host").ChunkField?;
    hide *;
    AddressesUnambiguous();
    var schema := MasterServerResponseSchema();
    OneWayFails(schema, buf, map[], {}, Decode(schema, buf, map[]).value.0, mins);
  }

  // ---------------------------------------------------------------- players

  /** A schema of scalars that all can be encoded again. */
  lemma {:induction false} ScalarsReencodable(fields: seq<Field>, values: Record)
    requires forall i :: 0 <= i < |fields| ==> !fields[i].ArrayField? && !OneWay(fields[i])
    ensures Reencodable(fields, values) && PacketElements(fields, values) == 0
    decreases |fields|
  {
    if |fields| > 0 {
      ScalarsReencodable(fields[1..], values);
    }
  }

  lemma {:induction false} AllArePackets(f: Field, items: seq<Record>, i: nat)
    requires f.ArrayField? && f.packet && i <= |items|
    requires forall j :: 0 <= j < |f.element| ==> !f.element[j].ArrayField? && !OneWay(f.element[j])
    ensures PacketItems(f, items, i) == |items| - i
    decreases |items| - i
  {
    if i < |items| {
      ScalarsReencodable(f.element, items[i]);
      AllArePackets(f, items, i + 1);
    }
  }

  lemma EntryScalars()
    ensures Unambiguous(PlayerEntrySchema(), {})
    ensures forall i :: 0 <= i < |PlayerEntrySchema()| ==>
      !PlayerEntrySchema()[i].ArrayField? && !OneWay(PlayerEntrySchema()[i])
  {
    ScalarsUnambiguous(PlayerEntrySchema(), ["index", "name", "score", "duration"], {});
    hide WellFormed;
  }

  lemma PlayersParts(values: Record, items: seq<Record>, mins: Minimums)
    requires "players" in values && values["players"] == ListV(items)
    ensures
      var schema, closure := PlayersResponseSchema(), PlayersField(true).closure;
      && Unambiguous(schema, {}) && Flat(schema)
      && Reencodable(schema, values) && PacketElements(schema, values) == |items|
      && (EmptiesStored(schema, values, mins) <==>
            (items == [] ==> closure in mins && mins[closure].IntV? && mins[closure].i <= 0))
  {
    var c, d, f := TypeField("response_type", false, 0x44), ByteField("player_count"), PlayersField(true);
    assert PlayersResponseSchema() == [c, d, f];
    EntryScalars();
    hide WellFormed, PlayerEntrySchema, PacketItems, Unambiguous, Flat, Reencodable, PacketElements, EmptiesStored;
    TwoAndArray(c, d, f, values, mins);
    forall i | 0 <= i < |items| ensures Reencodable(f.element, items[i]) {
      ScalarsReencodable(f.element, items[i]);
    }
    AllArePackets(f, items, 0);
  }

  /** The players of a response. */
  function PlayersOf(values: Record): seq<Record> {
    if "players" in values && values["players"].ListV? then values["players"].items else []
  }

  lemma PlayersListed(count: int, items: seq<Record>)
    ensures var values := PlayersValues(count, items);
      "players" in values && values["players"] == ListV(items) && PlayersOf(values) == items
  {
  }

  /** A decoded players response can be encoded again if it has players, and otherwise as what is stored for its count
      allows; but every player gets a header, so that only the empty response is encoded to what was consumed. */
  lemma DecodedPlayersEncode(buf: Bytes, mins: Minimums)
    requires Decode(PlayersResponseSchema(), buf, map[]).Ok?
    ensures
      var (values, rest) := Decode(PlayersResponseSchema(), buf, map[]).value;
      var encoded, players := Encode(PlayersResponseSchema(), values, mins).0, PlayersOf(values);
      var closure := PlayersField(true).closure;
      && (encoded.Ok? <==> (players == [] ==> closure in mins && mins[closure].IntV? && mins[closure].i <= 0))
      && (encoded.Ok? ==> |encoded.value| == |buf| - |rest| + 4 * |players|)
      && (encoded.Ok? ==> (encoded == Ok(buf[..|buf| - |rest|]) <==> players == []))
  {
    hide *;
    ResponseIsPacket();
    PlayersDecode(true, buf);
    var items := DecodeMany(PlayerEntrySchema(), buf[2..], Bound(Some(buf[1]), buf[1]), 0).value.0;
    PlayersListed(buf[1], items);
    var values := Decode(PlayersResponseSchema(), buf, map[]).value.0;
    PlayersParts(values, items, mins);
    FlatIff(PlayersResponseSchema(), values, mins);
    DecodeThenEncode(PlayersResponseSchema(), buf, mins);
  }

  // ---------------------------------------------------------------- rules

  /** What a dictionary of rules says about how many there were. */
  lemma NoneOrSome(rules: seq<Rule>, m: map<Value, Value>)
    requires LastWins(rules, m)
    ensures rules == [] <==> m == map[]
  {
    if rules != [] {
      assert LastValue(rules, rules[|rules| - 1].0).Some?;
      assert TextV(rules[|rules| - 1].0) in m;
    } else {
      assert forall v :: v !in m;
    }
  }

  lemma RulesParts(values: Record, m: map<Value, Value>, mins: Minimums)
    requires "rules" in values && values["rules"] == DictV(m)
    ensures
      var schema, closure := RulesResponseSchema(), RulesField().closure;
      && Unambiguous(schema, {}) && Flat(schema)
      && (Reencodable(schema, values) <==> m == map[]) && PacketElements(schema, values) == 0
      && (EmptiesStored(schema, values, mins) <==>
            (m == map[] ==> closure in mins && mins[closure].IntV? && mins[closure].i <= 0))
  {
    var c, d, f := TypeField("response_type", false, 0x45), ShortField("rule_count"), RulesField();
    assert RulesResponseSchema() == [c, d, f];
    ScalarsUnambiguous(RuleEntrySchema(), ["key", "value"], {});
    hide WellFormed, RuleEntrySchema, Unambiguous, Flat, Reencodable, PacketElements, EmptiesStored;
    TwoAndArray(c, d, f, values, mins);
  }

  lemma RulesListed(n: int, m: map<Value, Value>)
    ensures var values := RulesValues(n, m);
      "rule_count" in values && values["rule_count"] == IntV(n) && "rules" in values && values["rules"] == DictV(m)
  {
  }

  /** A decoded rules response can be encoded again exactly when it has no rules, that is, when its count is at
      most zero, and the minimum stored for the count allows that: a dictionary of rules is no list of elements.  The
      encoding is then what was consumed. */
  lemma DecodedRulesEncode(packet: Bytes, mins: Minimums)
    requires Decode(RulesResponseSchema(), packet, map[]).Ok?
    ensures
      var (values, rest) := Decode(RulesResponseSchema(), packet, map[]).value;
      var encoded, closure := Encode(RulesResponseSchema(), values, mins).0, RulesField().closure;
      && "rule_count" in values && values["rule_count"].IntV?
      && (encoded.Ok? <==>
            values["rule_count"].i <= 0 && closure in mins && mins[closure].IntV? && mins[closure].i <= 0)
      && (encoded.Ok? ==> encoded == Ok(packet[..|packet| - |rest|]))
  {
    hide *;
    var rules, m, tail := RulesDecode(packet);
    NoneOrSome(rules, m);
    RulesListed(ShortOf(packet[1..3]), m);
    var values := Decode(RulesResponseSchema(), packet, map[]).value.0;
    RulesParts(values, m, mins);
    FlatIff(RulesResponseSchema(), values, mins);
    DecodeThenEncode(RulesResponseSchema(), packet, mins);
  }

  /** A list of rules is encoded as its strings, and read back as the dictionary in which the last value of every key
      wins: what was encoded is not what is decoded, but it is all there. */
  lemma RulesListRoundTrip(count: Bytes, rules: seq<Rule>, mins: Minimums, tail: Bytes) returns (m: map<Value, Value>)
    requires AreRules(rules) && rules != [] && |count| == 2 && ShortOf(count) == |rules|
    ensures
      var encoded := Encode(RulesResponseSchema(), RulesGiven(|rules|, rules), mins).0;
      && encoded == Ok([0x45] + (count + RuleBytes(rules)))
      && Decode(RulesResponseSchema(), encoded.value + tail, map[]) == Ok((RulesValues(|rules|, m), tail))
      && LastWins(rules, m)
  {
    hide *;
    RulesGivenEncode(count, rules, mins);
    m := RulesLastWin(count, rules, tail);
    Reassociate(count, RuleBytes(rules), tail);
    Reassociate([0x45], count + RuleBytes(rules), tail);
  }

  /** The values of a rules response that is made from a list. */
  function RulesGiven(n: int, rules: seq<Rule>): Record {
    map["response_type" := IntV(0x45), "rule_count" := IntV(n), "rules" := ListV(RuleRecords(rules))]
  }

  lemma RuleEncodes(rule: Rule, mins: Minimums)
    ensures Encode(RuleEntrySchema(), RuleRecord(rule), mins) == (Ok(rule.0 + [0] + (rule.1 + [0])), mins)
  {
    var values, k, v := RuleRecord(rule), StringField("key"), StringField("value");
    EncodeCons(v, [], values, mins);
    EncodeCons(k, [v] + [], values, mins);
    assert RuleEntrySchema() == [k] + ([v] + []);
    assert rule.1 + [0] + [] == rule.1 + [0];
  }

  lemma {:induction false} RuleItems(rules: seq<Rule>, i: nat, values: Record, mins: Minimums)
    requires i <= |rules| && "rule_count" in values && values["rule_count"] == IntV(|rules|)
    requires i == |rules| ==> RulesField().closure in mins && mins[RulesField().closure] == IntV(|rules|)
    ensures WellFormedField(RulesField())
    ensures EncodeItems(RulesField(), RuleRecords(rules), i, values, mins).0 == Ok(RuleBytes(rules[i..]))
    decreases |rules| - i
  {
    var f, items := RulesField(), RuleRecords(rules);
    hide RuleEntrySchema, Encode, RuleRecord;
    if i < |rules| {
      var mins1 := Called(f.count, f.closure, values, mins);
      RecordAt(rules, i);
      RuleEncodes(rules[i], mins1);
      RuleItems(rules, i + 1, values, mins1);
      assert rules[i..][0] == rules[i] && rules[i..][1..] == rules[i + 1..];
      Joined(rules[i], RuleBytes(rules[i + 1..]));
    }
  }

  lemma {:induction false} RecordAt(rules: seq<Rule>, i: nat)
    requires i < |rules|
    ensures RuleRecords(rules)[i] == RuleRecord(rules[i])
  {
    hide RuleRecord;
    if i > 0 {
      RecordAt(rules[1..], i - 1);
    }
  }

  lemma Joined(rule: Rule, more: Bytes)
    ensures rule.0 + [0] + (rule.1 + [0]) + more == rule.0 + [0] + (rule.1 + [0] + more)
  {
    Reassociate(rule.0 + [0], rule.1 + [0], more);
  }

  lemma RulesGivenEncode(count: Bytes, rules: seq<Rule>, mins: Minimums)
    requires rules != [] && |count| == 2 && ShortOf(count) == |rules|
    ensures Encode(RulesResponseSchema(), RulesGiven(|rules|, rules), mins).0 ==
      Ok([0x45] + (count + RuleBytes(rules)))
  {
    var values := RulesGiven(|rules|, rules);
    var t, c, f := TypeField("response_type", false, 0x45), ShortField("rule_count"), RulesField();
    hide EncodeItems, RulesResponseSchema, RuleEntrySchema, RuleBytes, RuleRecords, ShortOf, Pack;
    RulesSchema();
    PackIs(count);
    ByteValue(0x45);
    EncodeCons(t, [c] + [f], values, mins);
    EncodeCons(c, [f], values, mins);
    EncodeCons(f, [], values, mins);
    assert [f] + [] == [f];
    assert EncodeField(t, values, mins) == (Ok([0x45]), mins) && EncodeField(c, values, mins) == (Ok(count), mins);
    assert EncodeField(f, values, mins) == EncodeItems(f, RuleRecords(rules), 0, values, mins);
    assert BoundOf(f.count, values) == Ok(Bound(Some(|rules|), |rules|));
    RuleItems(rules, 0, values, mins);
    assert rules[0..] == rules && RuleBytes(rules) + [] == RuleBytes(rules);
  }

  // ---------------------------------------------------------------- what must be given

  /** Fields without which a message cannot be encoded. */
  predicate AllNeeded(fields: seq<Field>) {
    forall i :: 0 <= i < |fields| ==> fields[i].ChunkField? || fields[i].ArrayField? || fields[i].presence.Required?
  }

  lemma NeededBoth(front: seq<Field>, back: seq<Field>)
    requires AllNeeded(front) && AllNeeded(back)
    ensures AllNeeded(front + back)
  {
  }

  lemma {:induction false} MissingFails(fields: seq<Field>, k: nat, values: Record, mins: Minimums)
    requires WellFormed(fields) && AllNeeded(fields) && k < |fields| && fields[k].name !in values
    ensures !Encode(fields, values, mins).0.Ok?
    decreases k
  {
    if k > 0 {
      MissingFails(fields[1..], k - 1, values, EncodeField(fields[0], values, mins).1);
    }
    hide EncodeItems, HasScalar, Closures;
  }

  lemma ResponsesNeedAll()
    ensures AllNeeded(InfoResponseSchema()) && AllNeeded(PlayersResponseSchema()) && AllNeeded(RulesResponseSchema())
    ensures AllNeeded(PlayerEntrySchema()) && AllNeeded(RuleEntrySchema())
    ensures AllNeeded(AddressEntrySchema()) && AllNeeded(MasterServerResponseSchema()) && AllNeeded(HeaderSchema())
    ensures AllNeeded(FragmentSchema()) && AllNeeded(CompressedFragmentSchema())
  {
    InfoNeedsAll();
    hide WellFormed, InfoResponseSchema;
  }

  lemma InfoNeedsAll()
    ensures AllNeeded(InfoResponseSchema())
  {
    var t := [TypeField("response_type", false, 0x49)];
    assert InfoResponseSchema() == t + (InfoNames() + (InfoCounts() + InfoFlags()));
    assert AllNeeded(t) && AllNeeded(InfoNames()) && AllNeeded(InfoCounts()) && AllNeeded(InfoFlags());
    hide *;
    NeededBoth(InfoCounts(), InfoFlags());
    NeededBoth(InfoNames(), InfoCounts() + InfoFlags());
    NeededBoth(t, InfoNames() + (InfoCounts() + InfoFlags()));
  }

  /** No response, no entry of one and no fragment can be encoded when one of its fields is missing. */
  lemma NothingIsOptional(fields: seq<Field>, k: nat, values: Record, mins: Minimums)
    requires fields in {InfoResponseSchema(), PlayersResponseSchema(), RulesResponseSchema(),
      MasterServerResponseSchema(), PlayerEntrySchema(), RuleEntrySchema(), AddressEntrySchema(), FragmentSchema()}
    requires k < |fields| && fields[k].name !in values
    ensures WellFormed(fields) && !Encode(fields, values, mins).0.Ok?
  {
    assert WellFormed(PlayersResponseSchema());
    hide *;
    ResponsesNeedAll();
    MissingFails(fields, k, values, mins);
  }

  /** The bytes of server type and platform are encoded from numbers of one byte. */
  lemma KindsEncode(name: string, kind: Kind, v: int, mins: Minimums)
    ensures WellFormedField(KindField(name, kind))
    ensures EncodeField(KindField(name, kind), map[name := IntV(v)], mins) ==
      (if 0 <= v < 256 then Ok([v]) else Broken, mins)
  {
    assert Pow256(1) == 256 * Pow256(0) && Pow256(0) == 1;
    if 0 <= v < 256 {
      ByteValue(v);
    }
  }

  /** The three counts that messages share with nothing else. */
  lemma CountsApart()
    ensures PlayersField(true).closure != RulesField().closure
    ensures AddressesField().closure != PlayersField(true).closure && AddressesField().closure != RulesField().closure
  {
  }
}
