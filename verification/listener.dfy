/** The listener in bytes: what the proxy sends back for any datagram with the ordinary header. */
module Listeners {
  import opened Outcomes
  import opened Wire
  import opened Codec
  import opened Dispatch
  import opened Packets
  import opened Reassembly
  import opened Receiving
  import opened EndToEnd
  import Proxy

  /** What a request asks for: 0x54 and a text ask for the info, whatever follows, also a challenge; 0x55 and 0x56 with
      four bytes of challenge for the players and the rules. */
  function ReadQuery(body: Bytes): Option<Proxy.Query> {
    if body == [] then None
    else if body[0] == 0x54 then if Terminator(body[1..]) < |body| - 1 then Some(Proxy.Info) else None
    else if |body| < 5 then None
    else if body[0] == 0x55 then Some(Proxy.Players(LongOf(body[1..5])))
    else if body[0] == 0x56 then Some(Proxy.Rules(LongOf(body[1..5])))
    else None
  }

  lemma QueryRead(body: Bytes)
    ensures FirstMatch(REQUEST_CLASSES, body).Ok?
    ensures QueryOf(FirstMatch(REQUEST_CLASSES, body).value) == ReadQuery(body)
  {
    RequestOf(body);
    hide FirstMatch, REQUEST_CLASSES, LongOf, InfoValues, TypeName, TypeCode;
  }

  /** The cached bytes under a key. */
  function CachedUnder(s: Proxy.State, key: Proxy.CacheKey): Option<Bytes> {
    if key in Proxy.View(s) then Some(Proxy.View(s)[key]) else None
  }

  /** Our challenge as it is sent: header, 0x41 and its four bytes. */
  function OurBytes(ours: int): Option<Bytes>
    requires IsLong(ours)
  {
    if ours == -1 then None else Some([255, 255, 255, 255, 0x41] + Long(ours))
  }

  /** What is sent back: nothing while the proxy is offline or the client's port is zero; the cached info; cached
      players and rules for our challenge, and our challenge for any other, unless it is the empty one. */
  function Answer(s: Proxy.State, query: Option<Proxy.Query>, port: int, ours: int): Option<Bytes>
    requires IsLong(ours)
  {
    if !s.status.online || port == 0 then None else
    match query
    case None => None
    case Some(Info) => CachedUnder(s, Proxy.A2sInfo)
    case Some(Players(k)) => if k == ours then CachedUnder(s, Proxy.A2sPlayers) else OurBytes(ours)
    case Some(Rules(k)) => if k == ours then CachedUnder(s, Proxy.A2sRules) else OurBytes(ours)
  }

  lemma ListenIs(s: Proxy.State, query: Option<Proxy.Query>, port: int, ours: int)
    requires IsLong(ours)
    ensures ResponseBytes(Proxy.Listen(s, query, port, ours), ours) == Answer(s, query, port, ours)
  {
    hide Proxy.View, ResponseBytes, OurBytes, CachedUnder, Proxy.FromCache;
    OurChallengeIs(ours);
    CachedIs(s, Proxy.A2sInfo, ours);
    if s.status.online && port != 0 && query.Some? {
      match query.value
      case Info =>
      case Players(k) => CachedIs(s, Proxy.A2sPlayers, ours);
      case Rules(k) => CachedIs(s, Proxy.A2sRules, ours);
    }
  }

  lemma CachedIs(s: Proxy.State, key: Proxy.CacheKey, ours: int)
    ensures ResponseBytes(Proxy.FromCache(Proxy.View(s), key), ours) == CachedUnder(s, key)
    ensures ResponseBytes(Proxy.Silence, ours) == None
  {
    hide EncodeRequest, Proxy.View;
  }

  lemma OurChallengeIs(ours: int)
    requires IsLong(ours)
    ensures ours != -1 ==> ResponseBytes(Proxy.OurChallenge, ours) == OurBytes(ours)
    ensures OurBytes(-1) == None
  {
    hide EncodeRequest, Long;
    ShortEncodes(GetChallengeResponse, ours);
    assert NO_SPLIT_HEADER + ([0x41] + Long(ours)) == [255, 255, 255, 255, 0x41] + Long(ours);
  }

  /** The listener's reply to every datagram with the ordinary header, whatever its table of fragments holds. */
  lemma ServesBytes(t: Table, s: Proxy.State, body: Bytes, port: int, ours: int, decompress: Decompress)
    requires IsLong(ours)
    ensures Served(t, s, NO_SPLIT_HEADER + body, port, ours, decompress) == Answer(s, ReadQuery(body), port, ours)
  {
    hide FirstMatch, DecodePacket, Receive, ReadQuery, QueryOf, Answer, ResponseBytes, Proxy.Listen, REQUEST_CLASSES;
    Prefixed(body);
    ReceivePlain(t, NO_SPLIT_HEADER + body, decompress);
    PlainPacket(body, REQUEST_CLASSES);
    QueryRead(body);
    ListenIs(s, ReadQuery(body), port, ours);
  }

  /** In particular every info request, with a challenge or without, is answered with the cached info. */
  lemma ServesInfo(
      t: Table, s: Proxy.State, challenge: Option<int>, port: int, ours: int, decompress: Decompress)
    requires challenge.Some? ==> IsLong(challenge.value)
    ensures EncodeRequest(InfoRequest, challenge).Ok? && EncodeRequest(InfoRequestV2, challenge).Ok?
    ensures
      var answer := if s.status.online && port != 0 then CachedUnder(s, Proxy.A2sInfo) else None;
      && Served(t, s, EncodeRequest(InfoRequest, challenge).value, port, ours, decompress) == answer
      && Served(t, s, EncodeRequest(InfoRequestV2, challenge).value, port, ours, decompress) == answer
  {
    assert Asks(InfoRequest, challenge) && Asks(InfoRequestV2, challenge);
    hide EncodeRequest, Served, Proxy.View;
    Serves(t, s, InfoRequest, challenge, port, ours, decompress);
    Serves(t, s, InfoRequestV2, challenge, port, ours, decompress);
  }
}
