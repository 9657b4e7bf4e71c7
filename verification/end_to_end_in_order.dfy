/** A network that delivers in order is one of those that the end-to-end results are about. */
module EndToEndInOrder {
  import opened Outcomes
  import opened Wire
  import opened Codec
  import opened Dispatch
  import opened Splitting
  import opened Reassembly
  import opened Receiving
  import opened EndToEnd
  import Challenges
  import Proxy

  /** One exchange whose response arrives as send_packet has sent it and answers request number `answers`. */
  function InOrder(
      server: Table, state: Proxy.State, port: int, answers: nat, messageId: int, response: Bytes): (hop: Hop)
    requires 1 <= messageId <= MAX_SIZE_32 && Lossless(|response|, FRAGMENT_MAX_SIZE)
    ensures hop.server == server && hop.state == state && hop.port == port
    ensures hop.answers == answers && hop.messageId == messageId
    ensures Sendable(|response|, FRAGMENT_MAX_SIZE)
    ensures hop.arrivals == Datagrams(response, messageId, FRAGMENT_MAX_SIZE) && hop.missing == |hop.arrivals| - 1
  {
    hide *;
    LossAt1200(|response|);
    SomeDatagrams(response, messageId);
    var arrivals := Datagrams(response, messageId, FRAGMENT_MAX_SIZE);
    Hop(server, state, port, answers, messageId, arrivals, |arrivals| - 1)
  }

  lemma SomeDatagrams(response: Bytes, messageId: int)
    requires 1 <= messageId <= MAX_SIZE_32 && Sendable(|response|, FRAGMENT_MAX_SIZE)
    ensures |Datagrams(response, messageId, FRAGMENT_MAX_SIZE)| >= 1
    ensures |response| <= FRAGMENT_MAX_SIZE ==> Datagrams(response, messageId, FRAGMENT_MAX_SIZE) == [response]
  {
    if |response| > FRAGMENT_MAX_SIZE {
      SendPlan(response, messageId, FRAGMENT_MAX_SIZE);
    }
    hide Sendable, AllFragments, CeilDiv;
  }

  /** The client gets the response, and a response of one datagram leaves its table as it was. */
  lemma Delivered(t: Table, hop: Hop, response: Bytes, decompress: Decompress)
    requires ValidTable(t) && 1 <= hop.messageId <= MAX_SIZE_32 && hop.messageId !in t.items
    requires NO_SPLIT_HEADER <= response && Lossless(|response|, FRAGMENT_MAX_SIZE)
    requires hop == InOrder(hop.server, hop.state, hop.port, hop.answers, hop.messageId, response)
    ensures Carries(t, hop, response, decompress)
    ensures ClientGot(t, hop, decompress) == ClientReply(Decoded(Arrived(response), RESPONSE_CLASSES))
    ensures |response| <= FRAGMENT_MAX_SIZE ==> ClientTable(t, hop, decompress) == t
  {
    hide *;
    InOrderCarries(t, hop, response, decompress);
    CarriesDelivers(t, hop, response, decompress);
    GotCarried(t, hop, response, decompress);
    if |response| <= FRAGMENT_MAX_SIZE {
      SomeDatagrams(response, hop.messageId);
      ReceivePlain(t, response, decompress);
    }
  }

  /** An exchange that brings data ends a call; what the network does afterwards plays no part. */
  lemma LastHop(
      c: MessageClass, challenge: Option<int>, t: Table, past: seq<Option<Bytes>>, hop: Hop, ours: int, data: Bytes,
      decompress: Decompress)
    requires ValidTable(t) && 1 <= hop.messageId <= MAX_SIZE_32 && hop.messageId !in t.items && Deliverable(data)
    requires NO_SPLIT_HEADER <= data && Lossless(|data|, FRAGMENT_MAX_SIZE)
    requires hop == InOrder(hop.server, hop.state, hop.port, |past|, hop.messageId, data)
    requires Response(c, challenge, hop, ours, decompress) == Some(data)
    ensures Faithful(c, challenge, t, past, [hop], ours, decompress)
  {
    hide *;
    DataCarried(data, ours);
    Delivered(t, hop, data, decompress);
    FaithfulFirst(c, challenge, t, past, [hop], ours, decompress);
  }

  lemma Two<T>(a: T, b: T)
    ensures [a, b][0] == a && [a, b][1..] == [b]
  {
  }

  lemma One<T>(a: T)
    ensures [] + [a] == [a]
  {
  }

  /** An exchange that brings our challenge is followed by the request with it. */
  lemma ChallengeHop(
      c: MessageClass, challenge: Option<int>, t: Table, asked: Hop, hop: Hop, ours: int, decompress: Decompress)
    requires ValidTable(t) && 1 <= asked.messageId <= MAX_SIZE_32 && asked.messageId !in t.items && IsLong(ours)
    requires asked == InOrder(asked.server, asked.state, asked.port, 0, asked.messageId, ChallengeBytes(ours))
    requires Response(c, challenge, asked, ours, decompress) == Some(ChallengeBytes(ours))
    requires Faithful(c, Some(ours), t, [Some(ChallengeBytes(ours))], [hop], ours, decompress)
    ensures Faithful(c, challenge, t, [], [asked, hop], ours, decompress)
  {
    assert 9 <= FRAGMENT_MAX_SIZE;
    hide *;
    Delivered(t, asked, ChallengeBytes(ours), decompress);
    Two(asked, hop);
    One(Some(ChallengeBytes(ours)));
    FaithfulFirst(c, challenge, t, [], [asked, hop], ours, decompress);
  }

  lemma KnownAnswer(
      c: MessageClass, challenge: Option<int>, hop: Hop, ours: int, data: Bytes, decompress: Decompress)
    requires Asks(c, challenge) && ours != Proxy.EMPTY_CHALLENGE && hop.state.status.online && hop.port != 0
    requires Knows(c, challenge, ours) && KeyOf(c) in Proxy.View(hop.state) && Proxy.View(hop.state)[KeyOf(c)] == data
    requires Deliverable(data)
    ensures Response(c, challenge, hop, ours, decompress) == Some(data)
  {
    hide *;
    DataCarried(data, ours);
    Listening(hop.state, c, challenge, hop.port, ours);
    ResponseIs(c, challenge, hop, ours, decompress);
  }

  lemma UnknownAnswer(c: MessageClass, challenge: Option<int>, hop: Hop, ours: int, decompress: Decompress)
    requires Asks(c, challenge) && IsLong(ours) && ours != Proxy.EMPTY_CHALLENGE
    requires hop.state.status.online && hop.port != 0 && !Knows(c, challenge, ours)
    ensures Response(c, challenge, hop, ours, decompress) == Some(ChallengeBytes(ours))
  {
    hide *;
    Listening(hop.state, c, challenge, hop.port, ours);
    ResponseIs(c, challenge, hop, ours, decompress);
  }

  /** Everything that `ClientGetsCachedBytes` asks for holds together: for a proxy that is online and has data for the
      request, in-order delivery takes one exchange when the client needs no other challenge, as for the info, and two
      otherwise, as for players and rules asked with the empty challenge. */
  lemma InOrderFaithful(
      c: MessageClass, challenge: Option<int>, t: Table, server: Table, state: Proxy.State, port: int, messageId: int,
      ours: int, decompress: Decompress) returns (hops: seq<Hop>, n: nat)
    requires Asks(c, challenge) && IsLong(ours) && ours != Proxy.EMPTY_CHALLENGE && ValidTable(t)
    requires state.status.online && port != 0 && 1 <= messageId <= MAX_SIZE_32 && messageId !in t.items
    requires KeyOf(c) in Proxy.View(state) && Deliverable(Proxy.View(state)[KeyOf(c)])
    ensures n == (if Knows(c, challenge, ours) then 0 else 1) && |hops| == n + 1 && hops[n].answers == n
    ensures forall i :: 0 <= i <= n ==> hops[i].state == state && hops[i].port == port
    ensures n == 1 ==> hops[0].answers == 0
    ensures Faithful(c, challenge, t, [], hops, ours, decompress)
  {
    hide *;
    var data := Proxy.View(state)[KeyOf(c)];
    DataCarried(data, ours);
    if Knows(c, challenge, ours) {
      var hop := InOrder(server, state, port, 0, messageId, data);
      hops, n := [hop], 0;
      KnownAnswer(c, challenge, hop, ours, data, decompress);
      LastHop(c, challenge, t, [], hop, ours, data, decompress);
    } else {
      var asked := InOrder(server, state, port, 0, messageId, ChallengeBytes(ours));
      var hop := InOrder(server, state, port, 1, messageId, data);
      hops, n := [asked, hop], 1;
      UnknownAnswer(c, challenge, asked, ours, decompress);
      InfoIsKnown(c, challenge, ours);
      WithOurs(c, challenge, ours);
      KnownAnswer(c, Some(ours), hop, ours, data, decompress);
      LastHop(c, Some(ours), t, [Some(ChallengeBytes(ours))], hop, ours, data, decompress);
      ChallengeHop(c, challenge, t, asked, hop, ours, decompress);
    }
  }

  /** What such a client ends with. */
  lemma InOrderGetsCachedBytes(
      c: MessageClass, challenge: Option<int>, t: Table, server: Table, state: Proxy.State, port: int, messageId: int,
      ours: int, decompress: Decompress) returns (hops: seq<Hop>)
    requires Asks(c, challenge) && IsLong(ours) && ours != Proxy.EMPTY_CHALLENGE && ValidTable(t)
    requires state.status.online && port != 0 && 1 <= messageId <= MAX_SIZE_32 && messageId !in t.items
    requires KeyOf(c) in Proxy.View(state) && Deliverable(Proxy.View(state)[KeyOf(c)])
    ensures Faithful(c, challenge, t, [], hops, ours, decompress)
    ensures
      var data := Proxy.View(state)[KeyOf(c)];
      var known := Knows(c, challenge, ours);
      && DecodePacket(data, RESPONSE_CLASSES).Ok?
      && Challenges.Conversation(challenge, Replies(t, hops, decompress)) ==
           (if known then [challenge] else [challenge, Some(ours)],
            Challenges.Returned(
              DecodePacket(data, RESPONSE_CLASSES).value, data, if known then challenge else Some(ours)))
  {
    hide *;
    var n;
    hops, n := InOrderFaithful(c, challenge, t, server, state, port, messageId, ours, decompress);
    ClientGetsCachedBytes(c, challenge, t, hops, n, ours, decompress);
    assert [challenge] + Again(0, ours) == [challenge];
    assert [challenge] + Again(1, ours) == [challenge, Some(ours)];
  }

  lemma {:induction false} NothingMatches(classes: seq<MessageClass>)
    ensures FirstMatch(classes, []) == Ok(None)
  {
    if classes != [] {
      hide Decode, SchemaOf;
      TypeByteFirst(classes[0], []);
      NothingMatches(classes[1..]);
    }
  }

  lemma UnreadDeliverable(data: Bytes)
    requires NO_SPLIT_HEADER <= data && Lossless(|data|, FRAGMENT_MAX_SIZE)
    requires DecodePacket(data, RESPONSE_CLASSES) == Ok(None)
    ensures Deliverable(data)
  {
    hide DecodePacket, Lossless, RESPONSE_CLASSES, NO_SPLIT_HEADER;
  }

  /** There are data that can be delivered: already the ordinary header alone. */
  lemma HeaderIsDeliverable()
    ensures Deliverable(NO_SPLIT_HEADER)
  {
    assert |NO_SPLIT_HEADER| == 4;
    hide *;
    NothingMatches(RESPONSE_CLASSES);
    PlainPacket([], RESPONSE_CLASSES);
    LossAt1200(4);
    assert NO_SPLIT_HEADER + [] == NO_SPLIT_HEADER;
    UnreadDeliverable(NO_SPLIT_HEADER);
  }
}
