/** Which message the bytes of a packet are. */
module Packets {
  import opened Outcomes
  import opened Wire
  import opened Codec
  import opened Messages
  import opened Reading
  import opened Dispatch

  /** A class whose type byte is another one does not match. */
  lemma OtherType(c: MessageClass, body: Bytes)
    requires body == [] || body[0] != TypeCode(c)
    ensures Attempt(c, body) == Ok(None)
  {
    hide Decode, SchemaOf;
    TypeByteFirst(c, body);
  }

  /** The message with this challenge. */
  function ShortMessage(c: MessageClass, challenge: int, tail: Bytes): Message {
    Message(c, map[TypeName(c).0 := IntV(TypeCode(c)), "challenge" := IntV(challenge)], tail)
  }

  /** Players and rules requests and challenges: a type byte and four bytes. */
  lemma ShortRead(c: MessageClass, body: Bytes)
    requires IsShort(c)
    ensures Attempt(c, body) ==
      if |body| < 5 || body[0] != TypeCode(c) then Ok(None)
      else Ok(Some(ShortMessage(c, LongOf(body[1..5]), body[5..])))
  {
    hide SchemaOf, Remainder, TypeCode, TypeName, LongOf, Decode;
    if body == [] || body[0] != TypeCode(c) {
      OtherType(c, body);
    } else {
      ShortSchema(c);
      TypeByteFirst(c, body);
      RestRead(body, map[TypeName(c).0 := IntV(TypeCode(c))]);
    }
  }

  lemma RestRead(body: Bytes, acc: Record)
    requires body != []
    ensures WellFormed([LongField("challenge")])
    ensures Decode([LongField("challenge")], body[1..], acc) ==
      if |body| < 5 then Broken else Ok((acc["challenge" := IntV(LongOf(body[1..5]))], body[5..]))
  {
    assert [LongField("challenge")] == [LongField("challenge")] + [];
    hide *;
    Ended([], acc);
    LongStep("challenge", [], body[1..], acc);
    if |body| >= 5 {
      assert body[1..][..4] == body[1..5] && body[1..][4..] == body[5..];
      Ended(body[5..], acc["challenge" := IntV(LongOf(body[1..5]))]);
    }
  }

  lemma Ended(buf: Bytes, acc: Record)
    ensures WellFormed([]) && Decode([], buf, acc) == Ok((acc, buf))
  {
  }

  /** The only class that has the type byte of the body decides. */
  lemma OnlyClass(c: MessageClass, classes: seq<MessageClass>, body: Bytes)
    requires forall d :: d in classes && d != c ==> body == [] || TypeCode(d) != body[0]
    ensures FirstMatch(classes, body) == if c in classes then Attempt(c, body) else Ok(None)
  {
    hide Attempt, TypeCode, FirstMatch;
    forall d | d in classes && d != c ensures Attempt(d, body) == Ok(None) {
      OtherType(d, body);
    }
    FirstMatchIsOnly(c, classes, body);
  }

  /** What a client reads: the type byte tells the class. */
  lemma ResponseOf(body: Bytes)
    ensures FirstMatch(RESPONSE_CLASSES, body) ==
      if body == [] then Ok(None)
      else if body[0] == 0x49 then Attempt(InfoResponse, body)
      else if body[0] == 0x44 then Attempt(PlayersResponse, body)
      else if body[0] == 0x45 then Attempt(RulesResponse, body)
      else if body[0] == 0x41 && |body| >= 5 then
        Ok(Some(ShortMessage(GetChallengeResponse, LongOf(body[1..5]), body[5..])))
      else Ok(None)
  {
    hide Attempt, FirstMatch, TypeName;
    var c := if body == [] || body[0] == 0x41 then GetChallengeResponse
      else if body[0] == 0x49 then InfoResponse
      else if body[0] == 0x44 then PlayersResponse
      else RulesResponse;
    OnlyClass(c, RESPONSE_CLASSES, body);
    ShortRead(GetChallengeResponse, body);
    if body == [] || (body[0] != TypeCode(c)) {
      OtherType(c, body);
    }
  }

  /** What the listener reads. */
  lemma RequestOf(body: Bytes)
    ensures FirstMatch(REQUEST_CLASSES, body) ==
      if body == [] then Ok(None)
      else if body[0] == 0x54 then
        var n := Terminator(body[1..]);
        if n == |body| - 1 then Ok(None)
        else
          var more := body[1..][n + 1..];
          var values := InfoValues(body[1..][..n]);
          if |more| >= 4 then
            Ok(Some(Message(InfoRequestV2, values["challenge" := IntV(LongOf(more[..4]))], more[4..])))
          else Ok(Some(Message(InfoRequest, values, more)))
      else if body[0] == 0x55 && |body| >= 5 then
        Ok(Some(ShortMessage(PlayersRequest, LongOf(body[1..5]), body[5..])))
      else if body[0] == 0x56 && |body| >= 5 then
        Ok(Some(ShortMessage(RulesRequest, LongOf(body[1..5]), body[5..])))
      else Ok(None)
  {
    hide Attempt, FirstMatch, TypeName, InfoValues;
    if body != [] && body[0] == 0x54 {
      InfoOf(body);
    } else {
      var c := if body != [] && body[0] == 0x55 then PlayersRequest else RulesRequest;
      NoInfo(body, c);
      ShortRead(c, body);
    }
  }

  lemma NoInfo(body: Bytes, c: MessageClass)
    requires c == PlayersRequest || c == RulesRequest
    requires body != [] ==> body[0] != 0x54 && (c == RulesRequest <==> body[0] != 0x55)
    ensures FirstMatch(REQUEST_CLASSES, body) == Attempt(c, body)
  {
    hide Attempt, FirstMatch, TypeName;
    OnlyClass(c, REQUEST_CLASSES, body);
  }

  lemma InfoOf(body: Bytes)
    requires body != [] && body[0] == 0x54
    ensures FirstMatch(REQUEST_CLASSES, body) ==
      var n := Terminator(body[1..]);
      if n == |body| - 1 then Ok(None)
      else
        var more := body[1..][n + 1..];
        var values := InfoValues(body[1..][..n]);
        if |more| >= 4 then
          Ok(Some(Message(InfoRequestV2, values["challenge" := IntV(LongOf(more[..4]))], more[4..])))
        else Ok(Some(Message(InfoRequest, values, more)))
  {
    hide Attempt, FirstMatch, InfoValues, LongOf;
    if Terminator(body[1..]) == |body[1..]| {
      UnreadableInfo(body);
      forall d | d in REQUEST_CLASSES ensures Attempt(d, body) == Ok(None) {
        if d != InfoRequest && d != InfoRequestV2 {
          OtherType(d, body);
        }
      }
      FirstMatchIsOnly(InfoRequest, REQUEST_CLASSES, body);
    } else {
      var n := Terminator(body[1..]);
      var payload, more := body[1..][..n], body[1..][n + 1..];
      assert body[1..] == payload + [0] + more && body == [0x54] + (payload + [0] + more);
      InfoForms(payload, more);
      if |more| >= 4 {
        LongIs(more[..4]);
      }
    }
  }

  // ---------------------------------------------------------------- encoding

  const QUERY_TEXT: string := "Source Engine Query"

  /** The payload of an info request that gives none. */
  lemma PayloadText()
    ensures |SourceEngineQuery()| == |QUERY_TEXT|
    ensures forall i :: 0 <= i < |QUERY_TEXT| ==> SourceEngineQuery()[i] as char == QUERY_TEXT[i]
  {
  }

  lemma TypeMissing(
      name: string, optional: bool, code: Byte, rest: seq<Field>, values: Record, mins: Minimums)
    requires WellFormed(rest) && name !in values
    ensures WellFormed([TypeField(name, optional, code)] + rest)
    ensures var r := Encode([TypeField(name, optional, code)] + rest, values, mins);
      if optional then r.0.Ok? ==> r.0.value != [] && r.0.value[0] == code else r.0.Crash?
  {
    EncodeCons(TypeField(name, optional, code), rest, values, mins);
    if optional {
      TypeByteEncodes(name, code, values, mins);
    }
  }

  predicate FillsType(c: MessageClass) {
    c != InfoResponse && c != PlayersResponse && c != RulesResponse
  }

  lemma FillsTypeIs(c: MessageClass)
    ensures FillsType(c) <==> TypeName(c).1
  {
  }

  /** Requests and challenges fill in their type byte; the other responses must be given it. */
  lemma TypeIsRequired(c: MessageClass, values: Record, mins: Minimums)
    requires TypeName(c).0 !in values
    ensures var r := Encode(SchemaOf(c), values, mins).0;
      if FillsType(c) then r.Ok? ==> r.value != [] && r.value[0] == TypeCode(c) else r.Crash?
  {
    hide *;
    FillsTypeIs(c);
    TypeMissing(TypeName(c).0, TypeName(c).1, TypeCode(c), Remainder(c), values, mins);
  }
}
