/** From the cache of the proxy to the client: requests, challenges, fragments and the network together. */
module EndToEnd {
  import opened Outcomes
  import opened Wire
  import opened Codec
  import opened Messages
  import opened Dispatch
  import opened Splitting
  import opened Reassembly
  import opened ReassemblyRuns
  import opened Fragments
  import opened Transport
  import opened Receiving
  import Challenges
  import Proxy

  // ---------------------------------------------------------------- the proxy's side

  /** What get_response_for looks at in a message. */
  function QueryOf(message: Option<Message>): Option<Proxy.Query> {
    if message.None? then None else
    match message.value.cls
    case InfoRequest => Some(Proxy.Info)
    case InfoRequestV2 => Some(Proxy.Info)
    case PlayersRequest => Some(Proxy.Players(Num(message.value.values, "challenge")))
    case RulesRequest => Some(Proxy.Rules(Num(message.value.values, "challenge")))
    case _ => None
  }

  function ResponseBytes(r: Proxy.Response, ours: int): Option<Bytes> {
    match r
    case Silence => None
    case Cached(data) => Some(data)
    case OurChallenge => match EncodeRequest(GetChallengeResponse, Some(ours)) case Ok(b) => Some(b) case _ => None
  }

  /** What the listener sends back for a datagram, given the table of its stream and the state of the proxy. */
  function Served(
      t: Table, s: Proxy.State, datagram: Bytes, port: int, ours: int, decompress: Decompress): Option<Bytes> {
    match Decoded(Receive(t, [datagram], decompress).1, REQUEST_CLASSES)
    case Got(message, _) => ResponseBytes(Proxy.Listen(s, QueryOf(message), port, ours), ours)
    case _ => None
  }

  predicate IsInfo(c: MessageClass) {
    c == InfoRequest || c == InfoRequestV2
  }

  /** The requests that updaters and game clients send: for the info with or without a challenge, the others with
      one. */
  predicate Asks(c: MessageClass, challenge: Option<int>) {
    || (IsInfo(c) && (challenge.Some? ==> IsLong(challenge.value)))
    || ((c == PlayersRequest || c == RulesRequest) && challenge.Some? && IsLong(challenge.value))
  }

  function KeyOf(c: MessageClass): Proxy.CacheKey {
    match c
    case PlayersRequest => Proxy.A2sPlayers
    case RulesRequest => Proxy.A2sRules
    case _ => Proxy.A2sInfo
  }

  function Asked(c: MessageClass, challenge: Option<int>): Proxy.Query {
    var given := if challenge.Some? then challenge.value else Proxy.EMPTY_CHALLENGE;
    match c
    case PlayersRequest => Proxy.Players(given)
    case RulesRequest => Proxy.Rules(given)
    case _ => Proxy.Info
  }

  lemma ReceivePlain(t: Table, packet: Bytes, decompress: Decompress)
    requires NO_SPLIT_HEADER <= packet
    ensures Classify(packet) == Plain(packet)
    ensures Receive(t, [packet], decompress) == (t, Arrived(packet), 1)
  {
    var body := packet[|NO_SPLIT_HEADER|..];
    assert packet == NO_SPLIT_HEADER + body;
    ParseUnsplit(body);
    hide Parse;
  }

  /** An encoded request is one plain datagram, which is read as the query that was asked. */
  lemma RequestRead(c: MessageClass, challenge: Option<int>)
    requires Asks(c, challenge)
    ensures EncodeRequest(c, challenge).Ok? && NO_SPLIT_HEADER <= EncodeRequest(c, challenge).value
    ensures |EncodeRequest(c, challenge).value| <= FRAGMENT_MAX_SIZE
    ensures var r := DecodePacket(EncodeRequest(c, challenge).value, REQUEST_CLASSES);
      r.Ok? && QueryOf(r.value) == Some(Asked(c, challenge))
  {
    if IsInfo(c) {
      InfoRead(challenge);
    } else {
      ShortAskRead(c, challenge.value);
    }
    hide EncodeRequest, DecodePacket, QueryOf, Asked, REQUEST_CLASSES;
  }

  lemma InfoRead(challenge: Option<int>)
    requires challenge.Some? ==> IsLong(challenge.value)
    ensures forall c {:trigger EncodeRequest(c, challenge)} | c == InfoRequest || c == InfoRequestV2 ::
      && EncodeRequest(c, challenge).Ok? && NO_SPLIT_HEADER <= EncodeRequest(c, challenge).value
      && |EncodeRequest(c, challenge).value| <= FRAGMENT_MAX_SIZE
      && var r := DecodePacket(EncodeRequest(c, challenge).value, REQUEST_CLASSES);
        r.Ok? && QueryOf(r.value) == Some(Asked(c, challenge))
  {
    hide *;
    InfoRoundTrip(challenge);
    InfoEncodes(challenge);
    var more := if challenge.Some? then Long(challenge.value) else [];
    Prefixed([0x54] + (SourceEngineQuery() + [0] + more));
    Prefixed([0x54] + (SourceEngineQuery() + [0] + []));
    InfoLength();
    InfoAsked(challenge);
  }

  lemma ShortAskRead(c: MessageClass, k: int)
    requires (c == PlayersRequest || c == RulesRequest) && IsLong(k)
    ensures EncodeRequest(c, Some(k)).Ok? && NO_SPLIT_HEADER <= EncodeRequest(c, Some(k)).value
    ensures |EncodeRequest(c, Some(k)).value| <= FRAGMENT_MAX_SIZE
    ensures var r := DecodePacket(EncodeRequest(c, Some(k)).value, REQUEST_CLASSES);
      r.Ok? && QueryOf(r.value) == Some(Asked(c, Some(k)))
  {
    assert IsShort(c) && c in REQUEST_CLASSES;
    hide *;
    ShortRoundTrip(c, k, REQUEST_CLASSES);
    ShortEncodes(c, k);
    Prefixed([TypeCode(c)] + Long(k));
    ShortAsked(c, k);
    InfoLength();
  }

  lemma Prefixed(body: Bytes)
    ensures NO_SPLIT_HEADER <= NO_SPLIT_HEADER + body && |NO_SPLIT_HEADER + body| == 4 + |body|
  {
  }

  lemma InfoLength()
    ensures |SourceEngineQuery()| == 19 && FRAGMENT_MAX_SIZE == 1200
  {
  }

  lemma InfoAsked(challenge: Option<int>)
    ensures Asked(InfoRequest, challenge) == Asked(InfoRequestV2, challenge) == Proxy.Info
    ensures forall values, tail :: QueryOf(Some(Message(InfoRequest, values, tail))) == Some(Proxy.Info)
    ensures forall values, tail :: QueryOf(Some(Message(InfoRequestV2, values, tail))) == Some(Proxy.Info)
  {
  }

  lemma ShortAsked(c: MessageClass, k: int)
    requires (c == PlayersRequest || c == RulesRequest) && IsLong(k)
    ensures Asks(c, Some(k))
    ensures QueryOf(Some(Message(c, map[TypeName(c).0 := IntV(TypeCode(c)), "challenge" := IntV(k)], []))) ==
      Some(Asked(c, Some(k)))
  {
    hide TypeName, TypeCode;
  }

  lemma Serves(
      t: Table, s: Proxy.State, c: MessageClass, challenge: Option<int>, port: int, ours: int, decompress: Decompress)
    requires Asks(c, challenge)
    ensures EncodeRequest(c, challenge).Ok?
    ensures Served(t, s, EncodeRequest(c, challenge).value, port, ours, decompress)
         == ResponseBytes(Proxy.Listen(s, Some(Asked(c, challenge)), port, ours), ours)
  {
    RequestRead(c, challenge);
    ReceivePlain(t, EncodeRequest(c, challenge).value, decompress);
    hide EncodeRequest, DecodePacket, Receive, Asked, QueryOf, Classify, Asks, ResponseBytes, Proxy.Listen,
      REQUEST_CLASSES;
  }

  // ---------------------------------------------------------------- the network and the client's side

  /** One exchange: the table of the proxy's stream, the state of the proxy and the client's port when the
      request is handled; which request, counting from zero, the response answers that the client receives; the
      message id of that response, and the datagrams that bring it. */
  datatype Hop = Hop(
    server: Table, state: Proxy.State, port: int, answers: nat, messageId: int, arrivals: seq<Bytes>, missing: nat)

  /** The network loses nothing of the response: its datagrams arrive in any order, its fragments also
      repeatedly, mixed with fragments of fewer than 1024 other message ids that complete nothing, and one of
      its datagrams arrives only at the end. */
  ghost predicate Carries(t: Table, hop: Hop, response: Bytes, decompress: Decompress) {
    var ds, m := Incomings(hop.arrivals), hop.messageId;
    && 1 <= m <= MAX_SIZE_32 && m !in t.items
    && Sendable(|response|, FRAGMENT_MAX_SIZE)
    && ds != []
    && (forall k :: 0 <= k < |ds| - 1 && !IsFor(ds[k], m) ==> Deliveries(t, ds, decompress)[k] == Pending)
    && if |response| <= FRAGMENT_MAX_SIZE then
         hop.arrivals[|ds| - 1] == response && forall k :: 0 <= k < |ds| - 1 ==> !IsFor(ds[k], m)
       else
         Shuffled(ds, m, Incomings(Datagrams(response, m, FRAGMENT_MAX_SIZE)), hop.missing)
  }

  /** The network can carry every response of lossless size to a client that does not know its message id yet:
      for example by delivering its datagrams in order. */
  lemma InOrderCarries(t: Table, hop: Hop, response: Bytes, decompress: Decompress)
    requires 1 <= hop.messageId <= MAX_SIZE_32 && hop.messageId !in t.items && Lossless(|response|, FRAGMENT_MAX_SIZE)
    requires Sendable(|response|, FRAGMENT_MAX_SIZE) &&
      hop.arrivals == Datagrams(response, hop.messageId, FRAGMENT_MAX_SIZE)
    requires hop.missing == |hop.arrivals| - 1
    ensures Carries(t, hop, response, decompress)
  {
    var m := hop.messageId;
    hide CeilDiv, Parse, Deliveries, Lossless, Sendable;
    if |response| > FRAGMENT_MAX_SIZE {
      var count := CeilDiv(|response|, FRAGMENT_MAX_SIZE);
      DatagramsAreFragments(response, m, FRAGMENT_MAX_SIZE);
      var parts := Uncompressed(Slices(response, FRAGMENT_MAX_SIZE - OVERHEAD, count));
      hide Slices, Datagrams;
      assert Incomings(hop.arrivals) == FragmentsOf(m, parts);
      InOrderIsShuffled(m, parts);
    }
  }

  lemma {:induction false} ReceiveLast(t: Table, packets: seq<Bytes>, data: Bytes, decompress: Decompress)
    requires packets != []
    requires forall k :: 0 <= k < |packets| - 1 ==> Deliveries(t, Incomings(packets), decompress)[k] == Pending
    requires Deliveries(t, Incomings(packets), decompress)[|packets| - 1] == Whole(data)
    ensures Receive(t, packets, decompress) == (After(t, Incomings(packets), decompress), Arrived(data), |packets|)
    decreases |packets|
  {
    hide *;
    var (t', first) := Handle(t, Classify(packets[0]), decompress);
    var rest := packets[1..];
    ReceiveFirst(t, packets, decompress);
    RunFirst(t, packets, decompress);
    assert Deliveries(t, Incomings(packets), decompress)[0] == first;
    if |packets| > 1 {
      forall k | 0 <= k < |rest| - 1 ensures Deliveries(t', Incomings(rest), decompress)[k] == Pending {
        assert Deliveries(t, Incomings(packets), decompress)[k + 1] == Pending;
      }
      ReceiveLast(t', rest, data, decompress);
    } else {
      NothingAfter(t', rest, decompress);
    }
  }

  lemma RunFirst(t: Table, packets: seq<Bytes>, decompress: Decompress)
    requires packets != []
    ensures
      var (t', first) := Handle(t, Classify(packets[0]), decompress);
      && Deliveries(t, Incomings(packets), decompress) == [first] + Deliveries(t', Incomings(packets[1..]), decompress)
      && After(t, Incomings(packets), decompress) == After(t', Incomings(packets[1..]), decompress)
  {
    assert Incomings(packets)[1..] == Incomings(packets[1..]);
    hide Handle, Classify;
  }

  lemma ReceiveFirst(t: Table, packets: seq<Bytes>, decompress: Decompress)
    requires packets != []
    ensures
      var (t', first) := Handle(t, Classify(packets[0]), decompress);
      && (first.Whole? ==> Receive(t, packets, decompress) == (t', Arrived(first.data), 1))
      && (first.Malformed? ==> Receive(t, packets, decompress) == (t', BrokenPacket(packets[0]), 1))
      && (first.Corrupt? ==> Receive(t, packets, decompress) == (t', Exception, 1))
      && (first.Pending? ==>
            var (t'', arrival, used) := Receive(t', packets[1..], decompress);
            Receive(t, packets, decompress) == (t'', arrival, used + 1))
  {
    hide Handle, Classify;
  }

  lemma NothingAfter(t: Table, packets: seq<Bytes>, decompress: Decompress)
    requires |packets| == 0
    ensures After(t, Incomings(packets), decompress) == t
  {
    assert Incomings(packets) == [];
  }

  lemma {:induction false} LastDelivery(t: Table, ds: seq<Incoming>, decompress: Decompress)
    requires ds != []
    ensures var before := After(t, ds[..|ds| - 1], decompress);
      Deliveries(t, ds, decompress)[|ds| - 1] == Handle(before, ds[|ds| - 1], decompress).1
    decreases |ds|
  {
    if |ds| > 1 {
      var t' := Handle(t, ds[0], decompress).0;
      LastDelivery(t', ds[1..], decompress);
      assert ds[1..][..|ds| - 2] == ds[..|ds| - 1][1..];
      hide Handle;
    }
  }

  /** A response of one datagram arrives as the last datagram. */
  lemma PlainArrives(t: Table, hop: Hop, response: Bytes, decompress: Decompress)
    requires NO_SPLIT_HEADER <= response && |response| <= FRAGMENT_MAX_SIZE && Carries(t, hop, response, decompress)
    ensures hop.arrivals != []
    ensures
      var ds := Incomings(hop.arrivals);
      && Deliveries(t, ds, decompress)[|ds| - 1] == Whole(response)
      && forall k :: 0 <= k < |ds| - 1 ==> Deliveries(t, ds, decompress)[k] == Pending
  {
    var ds, m := Incomings(hop.arrivals), hop.messageId;
    assert |ds| == |hop.arrivals| && ds != [] && ds[|ds| - 1] == Classify(hop.arrivals[|ds| - 1]);
    hide Deliveries, After, Receive, Shuffled, Incomings, Classify, NO_SPLIT_HEADER, Sendable;
    ReceivePlain(t, response, decompress);
    LastDelivery(t, ds, decompress);
    PlainDelivered(After(t, ds[..|ds| - 1], decompress), response, decompress);
  }

  /** The last missing fragment of any other completes it. */
  lemma FragmentsArrive(t: Table, hop: Hop, response: Bytes, decompress: Decompress)
    requires ValidTable(t) && Lossless(|response|, FRAGMENT_MAX_SIZE) && |response| > FRAGMENT_MAX_SIZE
    requires Carries(t, hop, response, decompress)
    ensures hop.arrivals != []
    ensures
      var ds := Incomings(hop.arrivals);
      && Deliveries(t, ds, decompress)[|ds| - 1] == Whole(response)
      && forall k :: 0 <= k < |ds| - 1 ==> Deliveries(t, ds, decompress)[k] == Pending
  {
    var ds := Incomings(hop.arrivals);
    assert |ds| == |hop.arrivals| && OVERHEAD < FRAGMENT_MAX_SIZE;
    hide ValidTable, Deliveries, Lossless, Sendable, CeilDiv, Shuffled, Incomings, IsFor;
    LossAt1200(|response|);
    ReassemblyInvertsSplitting(t, response, hop.messageId, FRAGMENT_MAX_SIZE, hop.arrivals, hop.missing, decompress);
  }

  /** What the network carries the client receives, and nothing before it. */
  lemma CarriesDelivers(t: Table, hop: Hop, response: Bytes, decompress: Decompress)
    requires ValidTable(t) && NO_SPLIT_HEADER <= response && Lossless(|response|, FRAGMENT_MAX_SIZE)
    requires Carries(t, hop, response, decompress)
    ensures Receive(t, hop.arrivals, decompress) ==
      (After(t, Incomings(hop.arrivals), decompress), Arrived(response), |hop.arrivals|)
    ensures ValidTable(After(t, Incomings(hop.arrivals), decompress))
  {
    hide *;
    if |response| <= FRAGMENT_MAX_SIZE {
      PlainArrives(t, hop, response, decompress);
    } else {
      FragmentsArrive(t, hop, response, decompress);
    }
    AfterValid(t, Incomings(hop.arrivals), decompress);
    ReceiveLast(t, hop.arrivals, response, decompress);
  }

  lemma PlainDelivered(t: Table, packet: Bytes, decompress: Decompress)
    ensures Handle(t, Plain(packet), decompress).1 == Whole(packet)
  {
  }

  /** What one recv_packet of the client means to send_recv_packet. */
  function ClientReply(r: Received): Challenges.Reply<Option<Message>> {
    match r
    case Got(Some(message), data) =>
      if message.cls == GetChallengeResponse then Challenges.ChallengeReply(Num(message.values, "challenge"))
      else Challenges.Reply(Some(message), data)
    case Got(None, data) => Challenges.Reply(None, data)
    case Raised => Challenges.Failed
    case NoMessage => Challenges.TimedOut
  }

  /** One recv_packet of the client: what it means, and the table after it. */
  function ClientGot(t: Table, hop: Hop, decompress: Decompress): Challenges.Reply<Option<Message>> {
    ClientReply(Decoded(Receive(t, hop.arrivals, decompress).1, RESPONSE_CLASSES))
  }

  function ClientTable(t: Table, hop: Hop, decompress: Decompress): Table {
    Receive(t, hop.arrivals, decompress).0
  }

  /** What the client receives in one exchange after another. */
  function Replies(t: Table, hops: seq<Hop>, decompress: Decompress): (r: seq<Challenges.Reply<Option<Message>>>)
    ensures |r| == |hops|
    decreases |hops|
  {
    hide ClientGot, ClientTable;
    if hops == [] then [] else
    [ClientGot(t, hops[0], decompress)] + Replies(ClientTable(t, hops[0], decompress), hops[1..], decompress)
  }

  /** What the proxy sends back for the request of one exchange. */
  function Response(
      c: MessageClass, challenge: Option<int>, hop: Hop, ours: int, decompress: Decompress): Option<Bytes>
  {
    match EncodeRequest(c, challenge)
    case Ok(request) => Served(hop.server, hop.state, request, hop.port, ours, decompress)
    case _ => None
  }

  lemma ResponseIs(c: MessageClass, challenge: Option<int>, hop: Hop, ours: int, decompress: Decompress)
    requires Asks(c, challenge)
    ensures Response(c, challenge, hop, ours, decompress)
         == ResponseBytes(Proxy.Listen(hop.state, Some(Asked(c, challenge)), hop.port, ours), ours)
  {
    Serves(hop.server, hop.state, c, challenge, hop.port, ours, decompress);
    hide EncodeRequest, Served, ResponseBytes, Proxy.Listen, Asked, Asks;
  }

  /** In every exchange the network brings to the client what the proxy has sent back for one of the requests so
      far: the one just sent, or an earlier one, for example because the datagram of its response arrives twice;
      `past` are the responses to the requests before. */
  ghost predicate Faithful(
      c: MessageClass, challenge: Option<int>, t: Table, past: seq<Option<Bytes>>, hops: seq<Hop>, ours: int,
      decompress: Decompress)
    decreases |hops|
  {
    hide ClientGot, ClientTable, Response, Carries;
    hops != [] ==>
      var hop := hops[0];
      var sent := past + [Response(c, challenge, hop, ours, decompress)];
      var reply := ClientGot(t, hop, decompress);
      && hop.answers < |sent|
      && (sent[hop.answers].Some? ==> Carries(t, hop, sent[hop.answers].value, decompress))
      && (reply.ChallengeReply? ==>
            Faithful(c, Some(reply.challenge), ClientTable(t, hop, decompress), sent, hops[1..], ours, decompress))
  }

  /** Cached data that survives the way back and is no challenge. */
  predicate Deliverable(data: Bytes) {
    && NO_SPLIT_HEADER <= data
    && Lossless(|data|, FRAGMENT_MAX_SIZE)
    && var message := DecodePacket(data, RESPONSE_CLASSES);
       message.Ok? && (message.value.Some? ==> message.value.value.cls != GetChallengeResponse)
  }

  lemma FaithfulFirst(
      c: MessageClass, challenge: Option<int>, t: Table, past: seq<Option<Bytes>>, hops: seq<Hop>, ours: int,
      decompress: Decompress)
    requires hops != []
    ensures
      var hop, sent := hops[0], past + [Response(c, challenge, hops[0], ours, decompress)];
      var reply := ClientGot(t, hop, decompress);
      Faithful(c, challenge, t, past, hops, ours, decompress) <==>
        && hop.answers < |sent|
        && (sent[hop.answers].Some? ==> Carries(t, hop, sent[hop.answers].value, decompress))
        && (reply.ChallengeReply? ==>
              Faithful(c, Some(reply.challenge), ClientTable(t, hop, decompress), sent, hops[1..], ours, decompress))
  {
    hide ClientGot, ClientTable, Response, Carries;
  }

  lemma GotCarried(t: Table, hop: Hop, response: Bytes, decompress: Decompress)
    requires Receive(t, hop.arrivals, decompress) ==
      (After(t, Incomings(hop.arrivals), decompress), Arrived(response), |hop.arrivals|)
    ensures ClientGot(t, hop, decompress) == ClientReply(Decoded(Arrived(response), RESPONSE_CLASSES))
    ensures ClientTable(t, hop, decompress) == After(t, Incomings(hop.arrivals), decompress)
  {
    hide Receive, Decoded, ClientReply, After, Incomings, RESPONSE_CLASSES;
  }

  /** The response of one exchange reaches the client, which is then in a valid state. */
  lemma Carried(
      c: MessageClass, challenge: Option<int>, t: Table, past: seq<Option<Bytes>>, hops: seq<Hop>, ours: int,
      response: Bytes, decompress: Decompress)
    requires ValidTable(t) && hops != [] && Faithful(c, challenge, t, past, hops, ours, decompress)
    requires
      if hops[0].answers < |past| then past[hops[0].answers] == Some(response)
      else Response(c, challenge, hops[0], ours, decompress) == Some(response)
    requires NO_SPLIT_HEADER <= response && Lossless(|response|, FRAGMENT_MAX_SIZE)
    ensures ClientGot(t, hops[0], decompress) == ClientReply(Decoded(Arrived(response), RESPONSE_CLASSES))
    ensures ValidTable(ClientTable(t, hops[0], decompress))
    ensures
      var reply, sent := ClientGot(t, hops[0], decompress), past + [Response(c, challenge, hops[0], ours, decompress)];
      reply.ChallengeReply? ==>
        Faithful(c, Some(reply.challenge), ClientTable(t, hops[0], decompress), sent, hops[1..], ours, decompress)
  {
    hide *;
    FaithfulFirst(c, challenge, t, past, hops, ours, decompress);
    CarriesDelivers(t, hops[0], response, decompress);
    GotCarried(t, hops[0], response, decompress);
  }

  lemma RepliesFirst(t: Table, hops: seq<Hop>, decompress: Decompress)
    requires hops != []
    ensures Replies(t, hops, decompress) ==
      [ClientGot(t, hops[0], decompress)] + Replies(ClientTable(t, hops[0], decompress), hops[1..], decompress)
  {
    hide ClientGot, ClientTable;
  }

  /** Our challenge is read as a challenge. */
  lemma ChallengeCarried(ours: int)
    requires IsLong(ours)
    ensures EncodeRequest(GetChallengeResponse, Some(ours)).Ok?
    ensures var response := EncodeRequest(GetChallengeResponse, Some(ours)).value;
      && NO_SPLIT_HEADER <= response && |response| == 9 && Lossless(|response|, FRAGMENT_MAX_SIZE)
      && ResponseBytes(Proxy.OurChallenge, ours) == Some(response)
      && ClientReply(Decoded(Arrived(response), RESPONSE_CLASSES)) == Challenges.ChallengeReply(ours)
  {
    var c := GetChallengeResponse;
    assert IsShort(c) && c in RESPONSE_CLASSES;
    hide *;
    ShortRoundTrip(c, ours, RESPONSE_CLASSES);
    ShortEncodes(c, ours);
    Prefixed([TypeCode(c)] + Long(ours));
    ShortIsLossless(NO_SPLIT_HEADER + ([TypeCode(c)] + Long(ours)));
    ChallengeRead(EncodeRequest(c, Some(ours)).value, ours);
  }

  lemma ShortIsLossless(b: Bytes)
    ensures |b| == 9 ==> Lossless(|b|, FRAGMENT_MAX_SIZE)
  {
    hide CeilDiv;
  }

  lemma ChallengeRead(b: Bytes, k: int)
    requires EncodeRequest(GetChallengeResponse, Some(k)) == Ok(b)
    requires DecodePacket(b, RESPONSE_CLASSES) == Ok(Some(Message(GetChallengeResponse,
      map[TypeName(GetChallengeResponse).0 := IntV(TypeCode(GetChallengeResponse)), "challenge" := IntV(k)], [])))
    ensures ResponseBytes(Proxy.OurChallenge, k) == Some(b)
    ensures ClientReply(Decoded(Arrived(b), RESPONSE_CLASSES)) == Challenges.ChallengeReply(k)
  {
    hide EncodeRequest, DecodePacket, TypeName, TypeCode, RESPONSE_CLASSES;
  }

  lemma DataCarried(data: Bytes, ours: int)
    requires Deliverable(data)
    ensures ResponseBytes(Proxy.Cached(data), ours) == Some(data)
    ensures NO_SPLIT_HEADER <= data && Lossless(|data|, FRAGMENT_MAX_SIZE)
    ensures DecodePacket(data, RESPONSE_CLASSES).Ok?
    ensures ClientReply(Decoded(Arrived(data), RESPONSE_CLASSES)) ==
      Challenges.Reply(DecodePacket(data, RESPONSE_CLASSES).value, data)
  {
    hide DecodePacket, Lossless, RESPONSE_CLASSES, NO_SPLIT_HEADER;
  }

  /** Whether the proxy gives out data at once. */
  predicate Knows(c: MessageClass, challenge: Option<int>, ours: int) {
    IsInfo(c) || challenge == Some(ours)
  }

  lemma Listening(s: Proxy.State, c: MessageClass, challenge: Option<int>, port: int, ours: int)
    requires Asks(c, challenge) && s.status.online && port != 0 && ours != Proxy.EMPTY_CHALLENGE
    ensures Knows(c, challenge, ours) && KeyOf(c) in Proxy.View(s) ==>
      Proxy.Listen(s, Some(Asked(c, challenge)), port, ours) == Proxy.Cached(Proxy.View(s)[KeyOf(c)])
    ensures !Knows(c, challenge, ours) ==> Proxy.Listen(s, Some(Asked(c, challenge)), port, ours) == Proxy.OurChallenge
  {
    hide Proxy.View;
  }

  lemma Ends<M>(challenge: Option<int>, message: M, data: Bytes, more: seq<Challenges.Reply<M>>)
    ensures Challenges.Conversation(challenge, [Challenges.Reply(message, data)] + more) ==
      ([challenge], Challenges.Returned(message, data, challenge))
  {
  }

  lemma Continues<M>(challenge: Option<int>, received: int, more: seq<Challenges.Reply<M>>)
    ensures Challenges.Conversation(challenge, [Challenges.ChallengeReply(received)] + more) ==
      ([challenge] + Challenges.Conversation(Some(received), more).0, Challenges.Conversation(Some(received), more).1)
  {
    assert ([Challenges.ChallengeReply(received)] + more)[1..] == more;
  }

  function ChallengeBytes(ours: int): (b: Bytes)
    requires IsLong(ours)
    ensures NO_SPLIT_HEADER <= b && |b| == 9 && Lossless(|b|, FRAGMENT_MAX_SIZE)
    ensures ResponseBytes(Proxy.OurChallenge, ours) == Some(b)
    ensures ClientReply(Decoded(Arrived(b), RESPONSE_CLASSES)) == Challenges.ChallengeReply(ours)
  {
    hide *;
    ChallengeCarried(ours);
    EncodeRequest(GetChallengeResponse, Some(ours)).value
  }

  /** A call during which nothing arrives times out, and one whose recv_packet raises ends with that exception. */
  lemma CutShort(challenge: Option<int>, t: Table, hops: seq<Hop>, decompress: Decompress)
    requires hops != []
    ensures
      var received := Decoded(Receive(t, hops[0].arrivals, decompress).1, RESPONSE_CLASSES);
      var call := Challenges.Conversation(challenge, Replies(t, hops, decompress));
      && (received == NoMessage ==> call == ([challenge], Challenges.TimeoutError))
      && (received == Raised ==> call == ([challenge], Challenges.Raised))
  {
    hide Receive, Decoded, ClientTable, RESPONSE_CLASSES;
    RepliesFirst(t, hops, decompress);
  }

  lemma WithOurs(c: MessageClass, challenge: Option<int>, ours: int)
    requires Asks(c, challenge) && !IsInfo(c) && IsLong(ours)
    ensures Asks(c, Some(ours)) && Knows(c, Some(ours), ours)
  {
  }

  /** Our challenge, sent again and again. */
  function Again(n: nat, ours: int): (sends: seq<Option<int>>)
    ensures |sends| == n && forall i :: 0 <= i < n ==> sends[i] == Some(ours)
  {
    seq(n, i => Some(ours))
  }

  lemma AgainFirst(n: nat, challenge: Option<int>, ours: int)
    ensures [challenge] + ([Some(ours)] + Again(n, ours)) == [challenge] + Again(n + 1, ours)
    ensures [challenge] + Again(0, ours) == [challenge]
    ensures ([Some(ours)] + Again(n, ours))[|[Some(ours)] + Again(n, ours)| - 1] == Some(ours)
  {
  }

  /** The first exchange brings data, which ends the call. */
  lemma DataEnds(
      c: MessageClass, challenge: Option<int>, t: Table, past: seq<Option<Bytes>>, hops: seq<Hop>, ours: int,
      data: Bytes,
      decompress: Decompress)
    requires ValidTable(t) && hops != [] && Faithful(c, challenge, t, past, hops, ours, decompress) && Deliverable(data)
    requires
      if hops[0].answers < |past| then past[hops[0].answers] == Some(data)
      else Response(c, challenge, hops[0], ours, decompress) == Some(data)
    ensures DecodePacket(data, RESPONSE_CLASSES).Ok?
    ensures Challenges.Conversation(challenge, Replies(t, hops, decompress)) ==
      ([challenge], Challenges.Returned(DecodePacket(data, RESPONSE_CLASSES).value, data, challenge))
  {
    hide *;
    DataCarried(data, ours);
    Carried(c, challenge, t, past, hops, ours, data, decompress);
    RepliesFirst(t, hops, decompress);
    Ends(challenge, DecodePacket(data, RESPONSE_CLASSES).value, data,
      Replies(ClientTable(t, hops[0], decompress), hops[1..], decompress));
  }

  /** The first exchange brings our challenge, which is sent next. */
  lemma ChallengeContinues(
      c: MessageClass, challenge: Option<int>, t: Table, past: seq<Option<Bytes>>, hops: seq<Hop>, ours: int,
      decompress: Decompress)
    requires ValidTable(t) && IsLong(ours) && hops != [] && Faithful(c, challenge, t, past, hops, ours, decompress)
    requires
      if hops[0].answers < |past| then past[hops[0].answers] == Some(ChallengeBytes(ours))
      else Response(c, challenge, hops[0], ours, decompress) == Some(ChallengeBytes(ours))
    ensures
      var t', sent := ClientTable(t, hops[0], decompress), past + [Response(c, challenge, hops[0], ours, decompress)];
      var (sends, r) := Challenges.Conversation(Some(ours), Replies(t', hops[1..], decompress));
      && ValidTable(t') && Faithful(c, Some(ours), t', sent, hops[1..], ours, decompress)
      && Challenges.Conversation(challenge, Replies(t, hops, decompress)) == ([challenge] + sends, r)
  {
    hide *;
    Carried(c, challenge, t, past, hops, ours, ChallengeBytes(ours), decompress);
    RepliesFirst(t, hops, decompress);
    Continues(challenge, ours, Replies(ClientTable(t, hops[0], decompress), hops[1..], decompress));
  }

  /** From any point of the call on: after `n` more deliveries of our challenge the bytes that the proxy has
      cached when it answers one of the requests with our challenge. */
  lemma {:induction false} WithRepeats(
      c: MessageClass, challenge: Option<int>, t: Table, past: seq<Option<Bytes>>, hops: seq<Hop>, n: nat, ours: int,
      data: Bytes, decompress: Decompress)
    requires Asks(c, challenge) && IsLong(ours) && ours != Proxy.EMPTY_CHALLENGE && ValidTable(t) && n < |hops|
    requires forall i :: 0 <= i <= n ==> hops[i].state.status.online && hops[i].port != 0
    requires Faithful(c, challenge, t, past, hops, ours, decompress) && Deliverable(data)
    requires forall i :: 0 <= i < n ==> hops[i].answers == 0
    requires n > 0 ==> !IsInfo(c)
    requires n > 0 ==> if past == [] then !Knows(c, challenge, ours) else past[0] == Some(ChallengeBytes(ours))
    requires
      var j := hops[n].answers;
      if j < |past| then past[j] == Some(data)
      else
        && j - |past| <= n && (j == |past| ==> Knows(c, challenge, ours))
        && KeyOf(c) in Proxy.View(hops[j - |past|].state) && Proxy.View(hops[j - |past|].state)[KeyOf(c)] == data
    ensures DecodePacket(data, RESPONSE_CLASSES).Ok?
    ensures Challenges.Conversation(challenge, Replies(t, hops, decompress)) ==
      ([challenge] + Again(n, ours),
       Challenges.Returned(DecodePacket(data, RESPONSE_CLASSES).value, data, if n == 0 then challenge else Some(ours)))
    decreases n
  {
    hide *;
    var now := Response(c, challenge, hops[0], ours, decompress);
    ResponseIs(c, challenge, hops[0], ours, decompress);
    Listening(hops[0].state, c, challenge, hops[0].port, ours);
    DataCarried(data, ours);
    AgainFirst(if n > 0 then n - 1 else 0, challenge, ours);
    if n == 0 {
      DataEnds(c, challenge, t, past, hops, ours, data, decompress);
    } else {
      ChallengeContinues(c, challenge, t, past, hops, ours, decompress);
      WithOurs(c, challenge, ours);
      var t' := ClientTable(t, hops[0], decompress);
      WithRepeats(c, Some(ours), t', past + [now], hops[1..], n - 1, ours, data, decompress);
    }
  }

  lemma InfoIsKnown(c: MessageClass, challenge: Option<int>, ours: int)
    ensures IsInfo(c) ==> Knows(c, challenge, ours)
  {
  }

  /** A client that runs send_recv_packet against a proxy that is online, over a network that only reorders,
      repeats and mixes, ends with exactly the bytes that the proxy has cached when it answers a request of the
      client that asks for them: for the info with one request; for players and rules the client sends our
      challenge once for every time that it is brought to it, which is once if nothing is repeated. */
  lemma ClientGetsCachedBytes(
      c: MessageClass, challenge: Option<int>, t: Table, hops: seq<Hop>, n: nat, ours: int, decompress: Decompress)
    requires Asks(c, challenge) && IsLong(ours) && ours != Proxy.EMPTY_CHALLENGE && ValidTable(t) && n < |hops|
    requires forall i :: 0 <= i <= n ==> hops[i].state.status.online && hops[i].port != 0
    requires Faithful(c, challenge, t, [], hops, ours, decompress)
    requires n == 0 <==> Knows(c, challenge, ours)
    requires forall i :: 0 <= i < n ==> hops[i].answers == 0
    requires n > 0 ==> 1 <= hops[n].answers
    requires hops[n].answers <= n
    requires
      var s := hops[hops[n].answers].state;
      KeyOf(c) in Proxy.View(s) && Deliverable(Proxy.View(s)[KeyOf(c)])
    ensures
      var data := Proxy.View(hops[hops[n].answers].state)[KeyOf(c)];
      && DecodePacket(data, RESPONSE_CLASSES).Ok?
      && Challenges.Conversation(challenge, Replies(t, hops, decompress)) ==
           ([challenge] + Again(n, ours),
            Challenges.Returned(
              DecodePacket(data, RESPONSE_CLASSES).value, data, if n == 0 then challenge else Some(ours)))
  {
    hide *;
    InfoIsKnown(c, challenge, ours);
    WithRepeats(
      c, challenge, t, [], hops, n, ours, Proxy.View(hops[hops[n].answers].state)[KeyOf(c)], decompress);
  }

  /** Whatever the states of the proxy are when it handles the packets of one call, online or not, with or
      without data: when challenges come from it alone, the call sends at most two packets, and the second with
      our challenge. */
  lemma ProxyAsksOnce<M>(
      c: MessageClass, own: Option<int>, states: seq<Proxy.State>, ports: seq<int>, ours: int,
      replies: seq<Challenges.Reply<M>>)
    requires |states| == |ports| >= |Challenges.Conversation(own, replies).0|
    requires
      var sends := Challenges.Conversation(own, replies).0;
      forall k :: 0 <= k < |sends| && k < |replies| && replies[k].ChallengeReply? ==>
        && Proxy.Listen(states[k], Some(Asked(c, sends[k])), ports[k], ours) == Proxy.OurChallenge
        && replies[k].challenge == ours
    ensures
      var sends := Challenges.Conversation(own, replies).0;
      sends == [own] || (!IsInfo(c) && own != Some(ours) && sends == [own, Some(ours)])
  {
    var sends := Challenges.Conversation(own, replies).0;
    hide Challenges.Conversation, Asked, Proxy.Listen;
    forall k | 0 <= k < |sends| && k < |replies| && replies[k].ChallengeReply?
      ensures sends[k] != Some(ours) && replies[k].challenge == ours && !IsInfo(c)
    {
      OnlyOthersAreAsked(states[k], c, sends[k], ports[k], ours);
    }
    Challenges.FollowsChallenges(own, replies);
    Challenges.TwoSends(own, replies, ours);
    assert |sends| > 1 ==> replies[0].ChallengeReply?;
  }

  lemma OnlyOthersAreAsked(s: Proxy.State, c: MessageClass, challenge: Option<int>, port: int, ours: int)
    requires Proxy.Listen(s, Some(Asked(c, challenge)), port, ours) == Proxy.OurChallenge
    ensures challenge != Some(ours) && !IsInfo(c)
  {
  }
}
