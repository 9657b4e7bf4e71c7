/** The listings: rules, and the addresses of the master server. */
module Listings {
  import opened Outcomes
  import opened Wire
  import opened Codec
  import opened CodecLaws
  import opened Messages
  import opened Reading

  // ---------------------------------------------------------------- rules

  type Rule = (Bytes, Bytes)

  predicate IsRule(rule: Rule) {
    0 !in rule.0 && 0 !in rule.1
  }

  predicate AreRules(rules: seq<Rule>) {
    forall i :: 0 <= i < |rules| ==> IsRule(rules[i])
  }

  function RuleBytes(rules: seq<Rule>): Bytes {
    if rules == [] then [] else rules[0].0 + [0] + (rules[0].1 + [0] + RuleBytes(rules[1..]))
  }

  function RuleRecord(rule: Rule): Record {
    map["key" := TextV(rule.0), "value" := TextV(rule.1)]
  }

  function RuleRecords(rules: seq<Rule>): (r: seq<Record>)
    ensures |r| == |rules|
  {
    if rules == [] then [] else [RuleRecord(rules[0])] + RuleRecords(rules[1..])
  }

  /** The value of the last rule with the key. */
  function LastValue(rules: seq<Rule>, key: Bytes): Option<Bytes> {
    if rules == [] then None
    else if rules[|rules| - 1].0 == key then Some(rules[|rules| - 1].1)
    else LastValue(rules[..|rules| - 1], key)
  }

  /** The dictionary in which every key has the last of its values. */
  ghost predicate LastWins(rules: seq<Rule>, m: map<Value, Value>) {
    forall v: Value ::
      if v.TextV? && LastValue(rules, v.text).Some? then v in m && m[v] == TextV(LastValue(rules, v.text).value)
        else v !in m
  }

  function Nuls(buf: Bytes): nat {
    if buf == [] then 0 else (if buf[0] == 0 then 1 else 0) + Nuls(buf[1..])
  }

  lemma {:induction false} NulsAfter(buf: Bytes)
    ensures Terminator(buf) == |buf| <==> Nuls(buf) == 0
    ensures Terminator(buf) < |buf| ==> Nuls(buf) == 1 + Nuls(buf[Terminator(buf) + 1..])
  {
    if buf != [] && buf[0] != 0 {
      NulsAfter(buf[1..]);
      assert Terminator(buf) < |buf| ==> buf[1..][Terminator(buf[1..]) + 1..] == buf[Terminator(buf) + 1..];
    }
  }

  /** Reading one string: it ends at the first NUL. */
  lemma ReadText(name: string, rest: seq<Field>, buf: Bytes, acc: Record)
    requires WellFormed(rest)
    ensures WellFormed([StringField(name)] + rest)
    ensures Nuls(buf) == 0 ==> Decode([StringField(name)] + rest, buf, acc).Broken?
    ensures Nuls(buf) > 0 ==>
      var n := Terminator(buf);
      n < |buf| && Decode([StringField(name)] + rest, buf, acc) ==
        Decode(rest, buf[n + 1..], acc[name := TextV(buf[..n])])
  {
    DecodeCons(StringField(name), rest, buf, acc);
    NulsAfter(buf);
  }

  /** Reading one rule: two strings, or a failure when there are not two NULs left. */
  lemma ReadRule(buf: Bytes) returns (rule: Rule, rest: Bytes)
    ensures Nuls(buf) < 2 ==> Decode(RuleEntrySchema(), buf, map[]).Broken?
    ensures Nuls(buf) >= 2 ==>
      && IsRule(rule)
      && buf == rule.0 + [0] + (rule.1 + [0] + rest)
      && Nuls(buf) == 2 + Nuls(rest)
      && Decode(RuleEntrySchema(), buf, map[]) == Ok((RuleRecord(rule), rest))
  {
    rule, rest := ([], []), [];
    var value := [StringField("value")] + [];
    ReadText("value", [], [], map[]);
    assert RuleEntrySchema() == [StringField("key")] + value;
    ReadText("key", value, buf, map[]);
    if Nuls(buf) > 0 {
      var text, after := SplitAtNul(buf);
      hide Decode, Terminator, Nuls, RuleEntrySchema;
      ReadText("value", [], after, map["key" := TextV(text)]);
      if Nuls(after) > 0 {
        var text', after' := SplitAtNul(after);
        rule, rest := (text, text'), after';
      }
    }
  }

  lemma SplitAtNul(buf: Bytes) returns (text: Bytes, rest: Bytes)
    requires Nuls(buf) > 0
    ensures Terminator(buf) < |buf| && text == buf[..Terminator(buf)] && rest == buf[Terminator(buf) + 1..]
    ensures 0 !in text && buf == text + [0] + rest
    ensures Nuls(buf) == 1 + Nuls(rest)
  {
    NulsAfter(buf);
    text, rest := buf[..Terminator(buf)], buf[Terminator(buf) + 1..];
  }

  lemma {:induction false} ReadRules(buf: Bytes, n: int, done: nat) returns (rules: seq<Rule>, tail: Bytes)
    ensures done < n && Nuls(buf) < 2 * (n - done) ==>
      DecodeMany(RuleEntrySchema(), buf, Bound(Some(n), n), done).Broken?
    ensures !(done < n && Nuls(buf) < 2 * (n - done)) ==>
      && |rules| == (if done < n then n - done else 0)
      && AreRules(rules)
      && buf == RuleBytes(rules) + tail
      && DecodeMany(RuleEntrySchema(), buf, Bound(Some(n), n), done) == Ok((RuleRecords(rules), tail))
    decreases n - done
  {
    hide Decode, DecodeMany, RuleEntrySchema, Nuls, RuleRecord, IsRule;
    rules, tail := [], buf;
    DecodeManyNext(RuleEntrySchema(), buf, Bound(Some(n), n), done);
    if done < n {
      var rule, rest := ReadRule(buf);
      if Nuls(buf) >= 2 {
        var more, tail' := ReadRules(rest, n, done + 1);
        rules, tail := [rule] + more, tail';
        RulesCons(rule, more);
        hide RuleBytes, RuleRecords, AreRules;
        if Nuls(rest) >= 2 * (n - done - 1) {
          Appended(rule, RuleBytes(more), tail);
        }
      }
    }
  }

  lemma RulesCons(rule: Rule, more: seq<Rule>)
    ensures RuleBytes([rule] + more) == rule.0 + [0] + (rule.1 + [0] + RuleBytes(more))
    ensures RuleRecords([rule] + more) == [RuleRecord(rule)] + RuleRecords(more)
    ensures IsRule(rule) && AreRules(more) ==> AreRules([rule] + more)
  {
    assert ([rule] + more)[1..] == more;
  }

  lemma Appended(rule: Rule, more: Bytes, tail: Bytes)
    ensures rule.0 + [0] + (rule.1 + [0] + (more + tail)) == rule.0 + [0] + (rule.1 + [0] + more) + tail
  {
    Reassociate(rule.1 + [0], more, tail);
    Reassociate(rule.0 + [0], rule.1 + [0] + more, tail);
  }

  /** The dictionary loop: later pairs replace earlier ones. */
  lemma {:induction false} PairsOfRules(
      rules: seq<Rule>, done: seq<Rule>, acc: map<Value, Value>) returns (m: map<Value, Value>)
    requires LastWins(done, acc)
    ensures Pairs("key", "value", RuleRecords(rules), acc) == Ok(m)
    ensures LastWins(done + rules, m)
    decreases |rules|
  {
    if rules == [] {
      m := acc;
      assert done + rules == done;
    } else {
      var rule := rules[0];
      var acc1 := acc[TextV(rule.0) := TextV(rule.1)];
      hide LastWins;
      LastWinsStep(done, acc, rule);
      m := PairsOfRules(rules[1..], done + [rule], acc1);
      Reassociate(done, [rule], rules[1..]);
      assert [rule] + rules[1..] == rules;
      assert RuleRecords(rules)[1..] == RuleRecords(rules[1..]);
    }
  }

  lemma LastWinsStep(done: seq<Rule>, acc: map<Value, Value>, rule: Rule)
    requires LastWins(done, acc)
    ensures LastWins(done + [rule], acc[TextV(rule.0) := TextV(rule.1)])
  {
    assert (done + [rule])[..|done|] == done;
  }

  function RulesValues(n: int, m: map<Value, Value>): Record {
    map["response_type" := IntV(0x45), "rule_count" := IntV(n), "rules" := DictV(m)]
  }

  /** A rules response is its type byte, its count as a short, and strings.  It is broken exactly when one of these is
      missing or fewer than two strings per rule are left, and otherwise gives the dictionary in which the last rule of
      each key wins. */
  lemma RulesDecode(packet: Bytes) returns (rules: seq<Rule>, m: map<Value, Value>, tail: Bytes)
    ensures
      var decoded := Decode(RulesResponseSchema(), packet, map[]);
      if |packet| < 3 || packet[0] != 0x45 then decoded.Broken?
      else
        var n, rest := ShortOf(packet[1..3]), packet[3..];
        if Nuls(rest) < 2 * n then decoded.Broken?
        else
          && decoded == Ok((RulesValues(n, m), tail))
          && |rules| == (if n > 0 then n else 0) && AreRules(rules) && rest == RuleBytes(rules) + tail
          && LastWins(rules, m)
  {
    rules, m, tail := [], map[], [];
    RulesPrefix(packet);
    hide Decode, DecodeMany, RulesResponseSchema, RuleEntrySchema, ShortOf, Nuls, LastWins, RuleBytes;
    if |packet| >= 3 && packet[0] == 0x45 {
      var n := ShortOf(packet[1..3]);
      rules, tail := ReadRules(packet[3..], n, 0);
      NoRules();
      m := PairsOfRules(rules, [], map[]);
      assert [] + rules == rules;
      RulesFieldDecode(n, packet[3..]);
    }
  }

  lemma NoRules()
    ensures LastWins([], map[])
  {
  }

  lemma RulesPrefix(packet: Bytes)
    ensures WellFormed([RulesField()])
    ensures |packet| < 3 || packet[0] != 0x45 ==> Decode(RulesResponseSchema(), packet, map[]).Broken?
    ensures |packet| >= 3 && packet[0] == 0x45 ==>
      Decode(RulesResponseSchema(), packet, map[]) ==
        Decode([RulesField()], packet[3..],
          map["response_type" := IntV(0x45)]["rule_count" := IntV(ShortOf(packet[1..3]))])
  {
    hide *;
    RulesSchema();
    ShortStep("rule_count", [RulesField()], [], map[]);
    FirstByte("response_type", false, 0x45, [ShortField("rule_count")] + [RulesField()], packet);
    if packet != [] {
      ShortStep("rule_count", [RulesField()], packet[1..], map["response_type" := IntV(0x45)]);
      if |packet| >= 3 {
        DropTwice(packet, 1, 2);
        assert packet[1..][..2] == packet[1..3];
      }
    }
  }

  lemma RulesSchema()
    ensures WellFormed([RulesField()])
    ensures RulesResponseSchema() ==
      [TypeField("response_type", false, 0x45)] + ([ShortField("rule_count")] + [RulesField()])
  {
    FieldByField([RulesField()]);
    hide RulesField;
  }

  lemma RulesFieldDecode(n: int, rest: Bytes)
    ensures WellFormed([RulesField()])
    ensures
      var acc: Record := map["response_type" := IntV(0x45)]["rule_count" := IntV(n)];
      var many := DecodeMany(RuleEntrySchema(), rest, Bound(Some(n), n), 0);
      Decode([RulesField()], rest, acc) ==
        if !many.Ok? then (if many.Broken? then Broken else Crash)
        else match Pairs("key", "value", many.value.0, map[])
          case Ok(m) => Ok((RulesValues(n, m), many.value.1))
          case Broken => Crash
          case Crash => Crash
  {
    var acc: Record := map["response_type" := IntV(0x45)]["rule_count" := IntV(n)];
    FieldByField([RulesField()]);
    DecodeCons(RulesField(), [], rest, acc);
    assert [RulesField()] == [RulesField()] + [];
    hide DecodeMany, Pairs, RuleEntrySchema;
  }

  /** A buffer starts with at most one list of rules of a given length. */
  lemma {:induction false} RulesUnique(a: seq<Rule>, s: Bytes, b: seq<Rule>, t: Bytes)
    requires AreRules(a) && AreRules(b) && |a| == |b|
    requires RuleBytes(a) + s == RuleBytes(b) + t
    ensures a == b && s == t
  {
    if a == [] {
      assert RuleBytes(a) + s == s && RuleBytes(b) + t == t;
    } else {
      Appended(a[0], RuleBytes(a[1..]), s);
      Appended(b[0], RuleBytes(b[1..]), t);
      TextUnique(a[0].0, a[0].1 + [0] + (RuleBytes(a[1..]) + s), b[0].0, b[0].1 + [0] + (RuleBytes(b[1..]) + t));
      TextUnique(a[0].1, RuleBytes(a[1..]) + s, b[0].1, RuleBytes(b[1..]) + t);
      RulesUnique(a[1..], s, b[1..], t);
      assert a == [a[0]] + a[1..] && b == [b[0]] + b[1..];
    }
  }

  lemma TextUnique(a: Bytes, s: Bytes, b: Bytes, t: Bytes)
    requires 0 !in a && 0 !in b && a + [0] + s == b + [0] + t
    ensures a == b && s == t
  {
    TerminatorOf(a, s);
    TerminatorOf(b, t);
    assert a == (a + [0] + s)[..|a|] && b == (b + [0] + t)[..|b|];
    assert s == (a + [0] + s)[|a| + 1..] && t == (b + [0] + t)[|b| + 1..];
  }

  /** For every list of rules, whatever follows it: the decoded dictionary is the one in which the last value of
      every key wins, and what follows is left over. */
  lemma RulesLastWin(count: Bytes, rules: seq<Rule>, tail: Bytes) returns (m: map<Value, Value>)
    requires AreRules(rules) && |count| == 2 && ShortOf(count) == |rules|
    ensures LastWins(rules, m)
    ensures Decode(RulesResponseSchema(), [0x45] + (count + (RuleBytes(rules) + tail)), map[])
         == Ok((RulesValues(|rules|, m), tail))
  {
    NulsOfRules(rules, tail);
    var packet := [0x45] + (count + (RuleBytes(rules) + tail));
    assert packet[1..3] == count && packet[3..] == RuleBytes(rules) + tail;
    hide RulesResponseSchema, Decode, RuleBytes, Nuls, LastWins, ShortOf;
    var rules', m', tail' := RulesDecode(packet);
    RulesUnique(rules, tail, rules', tail');
    m := m';
  }

  lemma {:induction false} NulsOfRules(rules: seq<Rule>, tail: Bytes)
    requires AreRules(rules)
    ensures Nuls(RuleBytes(rules) + tail) == 2 * |rules| + Nuls(tail)
  {
    if rules == [] {
      assert RuleBytes(rules) + tail == tail;
    } else {
      var after := RuleBytes(rules[1..]) + tail;
      Appended(rules[0], RuleBytes(rules[1..]), tail);
      TerminatorOf(rules[0].0, rules[0].1 + [0] + after);
      TerminatorOf(rules[0].1, after);
      NulsAfter(rules[0].0 + [0] + (rules[0].1 + [0] + after));
      NulsAfter(rules[0].1 + [0] + after);
      assert (rules[0].0 + [0] + (rules[0].1 + [0] + after))[|rules[0].0| + 1..] == rules[0].1 + [0] + after;
      assert (rules[0].1 + [0] + after)[|rules[0].1| + 1..] == after;
      NulsOfRules(rules[1..], tail);
    }
  }

  // ---------------------------------------------------------------- master-server addresses

  /** Six bytes as an address: four bytes of host, and the port, high byte first. */
  function Address(b: Bytes): Record
    requires |b| == 6
  {
    map["host" := ChunkV(b[..4]), "port" := IntV(Port(b[4], b[5]))]
  }

  function Port(high: int, low: int): int {
    256 * high + low
  }

  lemma HighFirst(b: Bytes)
    requires |b| == 2
    ensures Unpack(IntFormat(2, false, true), b) == Port(b[0], b[1])
  {
    var low := Reversed(b);
    assert FromLowFirst(low) == low[0] + 256 * FromLowFirst(low[1..]);
    assert FromLowFirst(low[1..]) == low[1] + 256 * FromLowFirst([]);
  }

  /** One address takes six bytes, and any six bytes are an address. */
  lemma ReadAddress(buf: Bytes)
    ensures Decode(AddressEntrySchema(), buf, map[]) ==
      if |buf| < 6 then Broken else Ok((Address(buf[..6]), buf[6..]))
  {
    hide *;
    AddressSchema();
    PortStep("port", [], [], map[]);
    HostStep("host", [PortField("port")] + [], buf, map[]);
    if |buf| >= 4 {
      var acc: Record := map[]["host" := ChunkV(buf[..4])];
      PortStep("port", [], buf[4..], acc);
      if |buf| >= 6 {
        AddressParts(buf);
        NothingLeft(buf[6..], Address(buf[..6]));
      }
    }
  }

  /** Host and port, read one after the other. */
  lemma AddressParts(buf: Bytes)
    requires |buf| >= 6
    ensures |buf[4..]| >= 2 && buf[4..][2..] == buf[6..]
    ensures
      var port := IntV(Unpack(IntFormat(2, false, true), buf[4..][..2]));
      && map[]["host" := ChunkV(buf[..4])]["port" := port] == Address(buf[..6])
      && map[]["start_host" := ChunkV(buf[..4])]["start_port" := port] == Start(buf[..6])
  {
    DropTwice(buf, 4, 2);
    HighFirst(buf[4..][..2]);
    assert buf[..6][..4] == buf[..4] && buf[4..][..2] == buf[..6][4..6];
    hide Unpack, Port;
  }

  lemma AddressSchema()
    ensures AddressEntrySchema() == [AddressField("host")] + ([PortField("port")] + [])
  {
  }

  lemma NothingLeft(buf: Bytes, acc: Record)
    ensures Decode([], buf, acc) == Ok((acc, buf))
  {
  }

  /** Whole addresses are read one after another. */
  lemma {:induction false} ReadAddresses(buf: Bytes, done: nat)
    ensures var r := DecodeMany(AddressEntrySchema(), buf, Bound(None, -1), done);
      && r.Ok? && |r.value.0| == |buf| / 6 && r.value.1 == buf[|buf| - |buf| % 6..]
      && forall i :: 0 <= i < |buf| / 6 ==> r.value.0[i] == Address(buf[6 * i..6 * i + 6])
    decreases |buf|
  {
    hide Decode, AddressEntrySchema, IsSuffix, WellFormed, HasScalar, Address;
    ReadAddress(buf);
    if |buf| >= 6 {
      ReadAddresses(buf[6..], done + 1);
      DropTwice(buf, 6, |buf| - 6 - |buf| % 6);
      forall i | 1 <= i < |buf| / 6 ensures buf[6..][6 * (i - 1)..6 * (i - 1) + 6] == buf[6 * i..6 * i + 6] {
      }
    }
  }

  lemma HostStep(name: string, rest: seq<Field>, buf: Bytes, acc: Record)
    requires WellFormed(rest)
    ensures WellFormed([AddressField(name)] + rest)
    ensures Decode([AddressField(name)] + rest, buf, acc) ==
      if |buf| < 4 then Broken else Decode(rest, buf[4..], acc[name := ChunkV(buf[..4])])
  {
    DecodeCons(AddressField(name), rest, buf, acc);
  }

  lemma PortStep(name: string, rest: seq<Field>, buf: Bytes, acc: Record)
    requires WellFormed(rest)
    ensures WellFormed([PortField(name)] + rest)
    ensures Decode([PortField(name)] + rest, buf, acc) ==
      if |buf| < 2 then Broken
        else Decode(rest, buf[2..], acc[name := IntV(Unpack(IntFormat(2, false, true), buf[..2]))])
  {
    DecodeCons(PortField(name), rest, buf, acc);
  }

  /** A master-server response is an address to start from and then whole addresses, in order; a rest of less than six
      bytes is left over. */
  lemma MasterServerDecode(packet: Bytes)
    ensures |packet| < 6 ==> Decode(MasterServerResponseSchema(), packet, map[]).Broken?
    ensures |packet| >= 6 ==>
      var n := |packet| - 6;
      var decoded := Decode(MasterServerResponseSchema(), packet, map[]);
      && decoded.Ok?
      && var (values, tail) := decoded.value;
         && tail == packet[|packet| - n % 6..]
         && values.Keys == {"start_host", "start_port", "addresses"}
         && values["start_host"] == Address(packet[..6])["host"] && values["start_port"] == Address(packet[..6])["port"]
         && values["addresses"].ListV? && |values["addresses"].items| == n / 6
         && forall i :: 0 <= i < n / 6 ==> values["addresses"].items[i] == Address(packet[6 + 6 * i..12 + 6 * i])
  {
    hide *;
    AddressesPrefix(packet);
    if |packet| >= 6 {
      var rest := packet[6..];
      AddressesDecode(rest, Start(packet[..6]));
      StartIs(packet[..6], Decode([AddressesField()], rest, Start(packet[..6])).value.0["addresses"]);
      Sliced(packet, rest);
    }
  }

  lemma Sliced(packet: Bytes, rest: Bytes)
    requires |packet| >= 6 && rest == packet[6..]
    ensures forall i :: 0 <= i < |rest| / 6 ==> rest[6 * i..6 * i + 6] == packet[6 + 6 * i..12 + 6 * i]
    ensures rest[|rest| - |rest| % 6..] == packet[|packet| - |rest| % 6..]
  {
    DropTwice(packet, 6, |rest| - |rest| % 6);
  }

  /** The address that a response starts from. */
  function Start(b: Bytes): Record
    requires |b| == 6
  {
    map["start_host" := ChunkV(b[..4]), "start_port" := IntV(Port(b[4], b[5]))]
  }

  lemma StartIs(b: Bytes, addresses: Value)
    requires |b| == 6
    ensures "host" in Address(b) && "port" in Address(b)
    ensures
      var values := Start(b)["addresses" := addresses];
      && values.Keys == {"start_host", "start_port", "addresses"}
      && values["start_host"] == Address(b)["host"] && values["start_port"] == Address(b)["port"]
  {
  }

  lemma AddressesPrefix(packet: Bytes)
    ensures WellFormed([AddressesField()])
    ensures |packet| < 6 ==> Decode(MasterServerResponseSchema(), packet, map[]).Broken?
    ensures |packet| >= 6 ==>
      Decode(MasterServerResponseSchema(), packet, map[]) == Decode([AddressesField()], packet[6..], Start(packet[..6]))
  {
    hide *;
    ResponseSchema();
    PortStep("start_port", [AddressesField()], [], map[]);
    HostStep("start_host", [PortField("start_port")] + [AddressesField()], packet, map[]);
    if |packet| >= 4 {
      PortStep("start_port", [AddressesField()], packet[4..], map[]["start_host" := ChunkV(packet[..4])]);
      if |packet| >= 6 {
        AddressParts(packet);
      }
    }
  }

  lemma ResponseSchema()
    ensures WellFormed([AddressesField()])
    ensures MasterServerResponseSchema() ==
      [AddressField("start_host")] + ([PortField("start_port")] + [AddressesField()])
  {
    FieldByField([AddressesField()]);
    hide AddressesField;
  }

  lemma AddressesDecode(rest: Bytes, acc: Record)
    ensures WellFormed([AddressesField()])
    ensures Decode([AddressesField()], rest, acc).Ok?
    ensures var (values, tail) := Decode([AddressesField()], rest, acc).value;
      && "addresses" in values && values["addresses"].ListV? && |values["addresses"].items| == |rest| / 6
      && values == acc["addresses" := values["addresses"]]
      && tail == rest[|rest| - |rest| % 6..]
      && forall i :: 0 <= i < |rest| / 6 ==> values["addresses"].items[i] == Address(rest[6 * i..6 * i + 6])
  {
    FieldByField([AddressesField()]);
    DecodeCons(AddressesField(), [], rest, acc);
    assert [AddressesField()] == [AddressesField()] + [];
    ReadAddresses(rest, 0);
    hide DecodeMany, AddressEntrySchema, Address, WellFormed;
  }
}
