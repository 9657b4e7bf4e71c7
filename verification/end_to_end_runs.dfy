/** End to end, in terms of what has happened to the proxy before. */
module EndToEndRuns {
  import opened Outcomes
  import opened Wire
  import opened Dispatch
  import opened Splitting
  import opened Reassembly
  import opened Transport
  import opened Receiving
  import opened EndToEnd
  import opened Codec
  import Challenges
  import OkFail
  import Proxy
  import ProxyRuns

  // ---------------------------------------------------------------- what updaters can receive

  /** Bytes that some recv_packet of a client gives with a message that is no challenge. */
  ghost predicate Heard(data: Bytes, decompress: Decompress) {
    exists t: Table, packets: seq<Bytes> :: Hears(t, packets, data, decompress)
  }

  ghost predicate Hears(t: Table, packets: seq<Bytes>, data: Bytes, decompress: Decompress) {
    var reply := ClientReply(Decoded(Receive(t, packets, decompress).1, RESPONSE_CLASSES));
    reply.Reply? && reply.data == data
  }

  /** A datagram that is reported as broken does not have the ordinary header. */
  lemma {:induction false} BrokenHasNoHeader(t: Table, packets: seq<Bytes>, decompress: Decompress)
    ensures var arrival := Receive(t, packets, decompress).1;
      arrival.BrokenPacket? ==> !(NO_SPLIT_HEADER <= arrival.raw)
    decreases |packets|
  {
    if packets == [] {
      assert Receive(t, packets, decompress).1 == StillWaiting;
    } else {
      hide *;
      ReceiveFirst(t, packets, decompress);
      if NO_SPLIT_HEADER <= packets[0] {
        ReceivePlain(t, packets[0], decompress);
        PlainDelivered(t, packets[0], decompress);
      }
      BrokenHasNoHeader(Handle(t, Classify(packets[0]), decompress).0, packets[1..], decompress);
    }
  }

  /** What was heard and has the ordinary header can be read, and is no challenge. */
  lemma HeardIsReadable(data: Bytes, decompress: Decompress)
    requires Heard(data, decompress) && NO_SPLIT_HEADER <= data && Lossless(|data|, FRAGMENT_MAX_SIZE)
    ensures Deliverable(data)
  {
    var t, packets :| Hears(t, packets, data, decompress);
    hide Receive, Lossless, NO_SPLIT_HEADER, Heard;
    BrokenHasNoHeader(t, packets, decompress);
    ReplyIsReadable(Receive(t, packets, decompress).1, data);
  }

  lemma ReplyIsReadable(arrival: Arrival, data: Bytes)
    requires NO_SPLIT_HEADER <= data && Lossless(|data|, FRAGMENT_MAX_SIZE)
    requires arrival.BrokenPacket? ==> !(NO_SPLIT_HEADER <= arrival.raw)
    requires var reply := ClientReply(Decoded(arrival, RESPONSE_CLASSES)); reply.Reply? && reply.data == data
    ensures Deliverable(data)
  {
    hide DecodePacket, Lossless, NO_SPLIT_HEADER, RESPONSE_CLASSES;
  }

  lemma {:induction false} RepliesAreHeard(t: Table, hops: seq<Hop>, k: nat, decompress: Decompress)
    requires k < |hops| && Replies(t, hops, decompress)[k].Reply?
    ensures Heard(Replies(t, hops, decompress)[k].data, decompress)
    decreases |hops|
  {
    RepliesFirst(t, hops, decompress);
    if k > 0 {
      hide *;
      RepliesAreHeard(ClientTable(t, hops[0], decompress), hops[1..], k - 1, decompress);
    } else {
      GotIsHeard(t, hops[0], decompress);
      hide *;
    }
  }

  lemma GotIsHeard(t: Table, hop: Hop, decompress: Decompress)
    ensures ClientGot(t, hop, decompress).Reply? ==> Heard(ClientGot(t, hop, decompress).data, decompress)
  {
    if ClientGot(t, hop, decompress).Reply? {
      assert Hears(t, hop.arrivals, ClientGot(t, hop, decompress).data, decompress);
    }
    hide Receive, Decoded, ClientReply;
  }

  /** What an updater caches after a call over the network has been heard. */
  lemma ReturnedIsHeard(own: Option<int>, t: Table, hops: seq<Hop>, decompress: Decompress)
    ensures
      var r := Challenges.Conversation(own, Replies(t, hops, decompress)).1;
      r.Returned? ==> Heard(r.data, decompress)
  {
    hide *;
    var replies := Replies(t, hops, decompress);
    Challenges.FollowsChallenges(own, replies);
    var (sends, r) := Challenges.Conversation(own, replies);
    if r.Returned? {
      RepliesAreHeard(t, hops, |sends| - 1, decompress);
    }
  }

  // ---------------------------------------------------------------- runs

  /** Every answer in the run is something that an updater can receive. */
  ghost predicate AllHeard(events: seq<Proxy.Event>, decompress: Decompress) {
    forall e :: e in events && e.Answered? ==> Heard(e.data, decompress)
  }

  lemma {:induction false} LastAnswerHeard(events: seq<Proxy.Event>, key: Proxy.CacheKey, decompress: Decompress)
    requires AllHeard(events, decompress) && ProxyRuns.LastAnswer(events, key).Some?
    ensures Heard(ProxyRuns.LastAnswer(events, key).value, decompress)
  {
    hide Heard;
    var n := |events| - 1;
    if !(events[n].Answered? && events[n].key == key) {
      LastAnswerHeard(events[..n], key, decompress);
    }
  }

  /** A proxy that has come to its state by a possible run with one wait_ready at a time, of which some exchange
      succeeded and fewer than `threshold` timeouts followed the last success. */
  ghost predicate Reached(s: Proxy.State, events: seq<Proxy.Event>, threshold: nat) {
    && s == ProxyRuns.After(Proxy.START, events, threshold)
    && ProxyRuns.Possible(Proxy.START, events, threshold)
    && ProxyRuns.OneAtATime(events)
    && OkFail.Monotonic(ProxyRuns.History(events))
    && OkFail.AnySuccess(ProxyRuns.History(events))
    && OkFail.TimeoutsSince(ProxyRuns.History(events)) < threshold
  }

  lemma ReachedServes(s: Proxy.State, events: seq<Proxy.Event>, threshold: nat, key: Proxy.CacheKey)
    requires threshold >= 1 && Reached(s, events, threshold)
    ensures s.status.online
    ensures ProxyRuns.LastAnswer(events, key).Some? ==>
      key in Proxy.View(s) && Proxy.View(s)[key] == ProxyRuns.LastAnswer(events, key).value
  {
    assert Reached(s, events, threshold);
    hide ProxyRuns.After, ProxyRuns.Possible, ProxyRuns.OneAtATime, ProxyRuns.History, ProxyRuns.LastAnswer,
         OkFail.AnySuccess, OkFail.TimeoutsSince, OkFail.Monotonic, OkFail.Run, Proxy.View;
    ProxyRuns.StatusIsRun(events, threshold);
    OkFail.OnlineRefinesHistory(ProxyRuns.History(events), threshold);
    ProxyRuns.ViewIsLastAnswers(events, threshold, key);
  }

  /** The same as ClientGetsCachedBytes, in terms of what has happened: the client ends with exactly the bytes
      that the matching updater received last before the proxy answers, whatever the other updaters and
      wait_ready have done.  Of the bytes only the ordinary header and a size that survives splitting are asked. */
  lemma ClientGetsLastAnswer(
      c: MessageClass, challenge: Option<int>, t: Table, hops: seq<Hop>, n: nat, runs: seq<seq<Proxy.Event>>,
      threshold: nat, ours: int, decompress: Decompress)
    requires Asks(c, challenge) && IsLong(ours) && ours != Proxy.EMPTY_CHALLENGE && ValidTable(t) && threshold >= 1
    requires n < |hops| == |runs|
    requires forall i :: 0 <= i <= n ==> Reached(hops[i].state, runs[i], threshold) && hops[i].port != 0
    requires forall i :: 0 <= i <= n ==> AllHeard(runs[i], decompress)
    requires Faithful(c, challenge, t, [], hops, ours, decompress)
    requires n == 0 <==> Knows(c, challenge, ours)
    requires forall i :: 0 <= i < n ==> hops[i].answers == 0
    requires n > 0 ==> 1 <= hops[n].answers
    requires hops[n].answers <= n
    requires
      var answer := ProxyRuns.LastAnswer(runs[hops[n].answers], KeyOf(c));
      answer.Some? && NO_SPLIT_HEADER <= answer.value && Lossless(|answer.value|, FRAGMENT_MAX_SIZE)
    ensures
      var data := ProxyRuns.LastAnswer(runs[hops[n].answers], KeyOf(c)).value;
      && DecodePacket(data, RESPONSE_CLASSES).Ok?
      && Challenges.Conversation(challenge, Replies(t, hops, decompress)) ==
           ([challenge] + Again(n, ours),
            Challenges.Returned(
              DecodePacket(data, RESPONSE_CLASSES).value, data, if n == 0 then challenge else Some(ours)))
  {
    hide *;
    var j := hops[n].answers;
    LastAnswerHeard(runs[j], KeyOf(c), decompress);
    HeardIsReadable(ProxyRuns.LastAnswer(runs[j], KeyOf(c)).value, decompress);
    forall i | 0 <= i <= n
      ensures hops[i].state.status.online && hops[i].port != 0
    {
      ReachedServes(hops[i].state, runs[i], threshold, KeyOf(c));
    }
    ReachedServes(hops[j].state, runs[j], threshold, KeyOf(c));
    ClientGetsCachedBytes(c, challenge, t, hops, n, ours, decompress);
  }
}
