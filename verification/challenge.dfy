/** QueryProxy.send_recv_packet: asking again with the challenge that was received. */
module Challenges {
  import opened Outcomes
  import opened Wire

  /** What comes back for a packet: a GetChallengeResponse, any other message with its bytes, a timeout, or another
      exception. */
  datatype Reply<M> = ChallengeReply(challenge: int) | Reply(message: M, data: Bytes) | TimedOut | Failed

  /** How the call ends: with a message, with asyncio.TimeoutError, with another exception; or it goes on waiting. */
  datatype Result<M> = Returned(message: M, data: Bytes, challenge: Option<int>) | TimeoutError | Raised | Waiting

  /** The challenges that are sent, and how the call ends, when the k-th packet is answered by the k-th reply. */
  function Conversation<M>(challenge: Option<int>, replies: seq<Reply<M>>): (seq<Option<int>>, Result<M>)
    decreases |replies|
  {
    if replies == [] then ([challenge], Waiting) else
    match replies[0]
    case TimedOut => ([challenge], TimeoutError)
    case Failed => ([challenge], Raised)
    case Reply(message, data) => ([challenge], Returned(message, data, challenge))
    case ChallengeReply(received) =>
      var (sends, r) := Conversation(Some(received), replies[1..]);
      ([challenge] + sends, r)
  }

  /** send_recv_packet; `own` is the challenge of the packet, if it has one. */
  method SendRecvPacket<M>(own: Option<int>, replies: seq<Reply<M>>) returns (sends: seq<Option<int>>, r: Result<M>)
    ensures (sends, r) == Conversation(own, replies)
  {
    var challenge := own;
    sends := [];
    var k := 0;
    assert replies[0..] == replies && [] + Conversation(own, replies).0 == Conversation(own, replies).0;
    while true
      invariant k <= |replies|
      invariant Conversation(own, replies) ==
        (sends + Conversation(challenge, replies[k..]).0, Conversation(challenge, replies[k..]).1)
      decreases |replies| - k
    {
      ghost var before := sends;
      sends := sends + [challenge];
      if k == |replies| {
        return sends, Waiting;
      }
      match replies[k] {
        case TimedOut => return sends, TimeoutError;
        case Failed => return sends, Raised;
        case Reply(message, data) => return sends, Returned(message, data, challenge);
        case ChallengeReply(received) =>
          assert replies[k..][1..] == replies[k + 1..];
          Reassociate(before, [challenge], Conversation(Some(received), replies[k + 1..]).0);
          challenge := Some(received);
      }
      k := k + 1;
    }
  }

  /** Every send after the first carries the challenge received just before it; what is returned is the first
      reply that is no challenge, with the challenge sent last. */
  lemma {:induction false} FollowsChallenges<M>(own: Option<int>, replies: seq<Reply<M>>)
    ensures
      var (sends, r) := Conversation(own, replies);
      var n := |sends| - 1;
      && 0 <= n <= |replies| && sends[0] == own
      && (forall k :: 0 <= k < n ==> replies[k].ChallengeReply? && sends[k + 1] == Some(replies[k].challenge))
      && (n < |replies| ==> !replies[n].ChallengeReply?)
      && r == if n == |replies| then Waiting
              else if replies[n].TimedOut? then TimeoutError
              else if replies[n].Failed? then Raised
              else Returned(replies[n].message, replies[n].data, sends[n])
    decreases |replies|
  {
    if replies != [] && replies[0].ChallengeReply? {
      FollowsChallenges(Some(replies[0].challenge), replies[1..]);
      var (more, r) := Conversation(Some(replies[0].challenge), replies[1..]);
      forall k | 0 <= k < |more|
        ensures replies[k].ChallengeReply? && ([own] + more)[k + 1] == Some(replies[k].challenge)
      {
        if k > 0 {
          assert replies[1..][k - 1].ChallengeReply?;
        }
      }
    }
  }

  /** The responder asks for one challenge, and only when it was not sent that one. */
  predicate Fixed<M>(fixed: int, sends: seq<Option<int>>, replies: seq<Reply<M>>) {
    forall k :: 0 <= k < |sends| && k < |replies| && replies[k].ChallengeReply? ==>
      sends[k] != Some(fixed) && replies[k].challenge == fixed
  }

  /** Against a responder with one challenge there are at most two sends, and the second carries it. */
  lemma TwoSends<M>(own: Option<int>, replies: seq<Reply<M>>, fixed: int)
    requires Fixed(fixed, Conversation(own, replies).0, replies)
    ensures
      var sends := Conversation(own, replies).0;
      && (sends == [own] || sends == [own, Some(fixed)])
      && (own == Some(fixed) ==> sends == [own])
      && (|replies| >= 2 ==> !Conversation(own, replies).1.Waiting?)
  {
    FollowsChallenges(own, replies);
    var sends := Conversation(own, replies).0;
    if |sends| > 1 {
      assert replies[0].ChallengeReply? && sends[1] == Some(fixed);
    }
  }
}
