/** SourceDatagramStream.send_packet: how a packet is cut into datagrams, and which packets survive it. */
module Splitting {
  import opened Outcomes
  import opened Wire
  import opened Fragments
  import opened Pieces

  const FRAGMENT_MAX_SIZE: int := 1200
  const MAX_SIZE_32: int := 0x7FFF_FFFF

  /** The header of the packet and of the fragment. */
  const OVERHEAD: int := 12

  /** math.ceil(a / b) */
  function CeilDiv(a: int, b: int): int
    requires b != 0
  {
    if b > 0 then -((0 - a) / b) else -(a / -b)
  }

  function Min(a: int, b: int): int {
    if a < b then a else b
  }

  /** How far the iterator over the packet is after `i` slices. */
  function Position(packet: Bytes, mtu: nat, i: nat): (p: nat)
    ensures p <= |packet|
  {
    Min(i * mtu, |packet|)
  }

  /** The slice that fragment `i` carries. */
  function Slice(packet: Bytes, mtu: nat, i: nat): Bytes {
    MoreSlices(packet, mtu, i);
    packet[Position(packet, mtu, i)..Position(packet, mtu, i + 1)]
  }

  lemma MoreSlices(packet: Bytes, mtu: nat, i: nat)
    ensures (i + 1) * mtu == i * mtu + mtu
    ensures Position(packet, mtu, i) <= Position(packet, mtu, i + 1)
    ensures Position(packet, mtu, i + 1) == Min(Position(packet, mtu, i) + mtu, |packet|)
  {
  }

  function Slices(packet: Bytes, mtu: nat, n: nat): (s: seq<Bytes>)
    ensures |s| == n && forall i :: 0 <= i < n ==> s[i] == Slice(packet, mtu, i)
  {
    if n == 0 then [] else Slices(packet, mtu, n - 1) + [Slice(packet, mtu, n - 1)]
  }

  /** Whether every fragment header can be packed: the count must fit a byte and the slice size a signed short. */
  predicate Sendable(length: nat, splitSize: int) {
    length <= splitSize || (OVERHEAD <= splitSize < 0x8000 + OVERHEAD && CeilDiv(length, splitSize) < 256)
  }

  /** The datagrams of a packet that can be sent. */
  function Datagrams(packet: Bytes, messageId: int, splitSize: int): (ds: seq<Bytes>)
    requires Sendable(|packet|, splitSize) && 1 <= messageId <= MAX_SIZE_32
  {
    if |packet| <= splitSize then [packet] else
    CountSign(|packet|, splitSize);
    AllFragments(packet, messageId, CeilDiv(|packet|, splitSize), splitSize - OVERHEAD, CeilDiv(|packet|, splitSize))
  }

  /** The first `n` fragments. */
  function AllFragments(packet: Bytes, messageId: int, count: int, mtu: nat, n: nat): (ds: seq<Bytes>)
    requires n <= count < 256 && mtu < 0x8000 && 1 <= messageId <= MAX_SIZE_32
    ensures |ds| == n
  {
    if n == 0 then [] else
    FragmentHeaderEncodes(messageId, count, n - 1, mtu);
    AllFragments(packet, messageId, count, mtu, n - 1)
    + [FragmentHeader(messageId, count, n - 1, mtu).value + Slice(packet, mtu, n - 1)]
  }

  lemma {:induction false} FragmentAt(
      packet: Bytes, messageId: int, count: int, mtu: nat, n: nat, i: nat)
    requires i < n <= count < 256 && mtu < 0x8000 && 1 <= messageId <= MAX_SIZE_32
    ensures FragmentHeader(messageId, count, i, mtu).Ok?
    ensures AllFragments(packet, messageId, count, mtu, n)[i]
         == FragmentHeader(messageId, count, i, mtu).value + Slice(packet, mtu, i)
  {
    hide *;
    LastFragment(packet, messageId, count, mtu, n);
    if i < n - 1 {
      FragmentAt(packet, messageId, count, mtu, n - 1, i);
    }
  }

  lemma LastFragment(packet: Bytes, messageId: int, count: int, mtu: nat, n: nat)
    requires 0 < n <= count < 256 && mtu < 0x8000 && 1 <= messageId <= MAX_SIZE_32
    ensures FragmentHeader(messageId, count, n - 1, mtu).Ok?
    ensures AllFragments(packet, messageId, count, mtu, n) == AllFragments(packet, messageId, count, mtu, n - 1)
      + [FragmentHeader(messageId, count, n - 1, mtu).value + Slice(packet, mtu, n - 1)]
  {
    FragmentHeaderEncodes(messageId, count, n - 1, mtu);
    assert FragmentFits(messageId, count, n - 1, mtu);
    hide FragmentHeader, Slice, FragmentFits;
  }

  /** A packet of length `q * s + r`, `1 <= r <= s`, is cut into `q + 1` fragments. */
  lemma Count(length: nat, s: int)
    requires s > 0 && length > 0
    ensures var q := (length - 1) / s; CeilDiv(length, s) == q + 1 && 1 <= length - q * s <= s
  {
    var q := (length - 1) / s;
    var r := length - q * s;
    assert length - 1 == q * s + (length - 1) % s;
    assert (-(q + 1)) * s + (s - r) == -(q * s) - r;
    DivIs(0 - length, s, -(q + 1), s - r);
  }

  lemma DivIs(a: int, b: int, q: int, r: int)
    requires b > 0 && 0 <= r < b && a == q * b + r
    ensures a / b == q
  {
    var d := a / b - q;
    assert (a / b) * b + a % b == q * b + r;
    assert d * b == r - a % b;
    assert d >= 1 ==> d * b >= b;
    assert d <= -1 ==> d * b <= -b;
  }

  /** The quotient rounded up, for either sign of the divisor. */
  lemma CeilIs(a: int, b: int)
    requires b != 0
    ensures b > 0 ==> (CeilDiv(a, b) - 1) * b < a <= CeilDiv(a, b) * b
    ensures b < 0 ==> CeilDiv(a, b) * b <= a < (CeilDiv(a, b) - 1) * b
  {
    if b > 0 {
      var q := (0 - a) / b;
      assert 0 - a == q * b + (0 - a) % b;
      assert (-q) * b == -(q * b) && (-q - 1) * b == -(q * b) - b;
    } else {
      var q := a / -b;
      assert a == q * -b + a % -b;
      assert (-q) * b == q * -b && (-q - 1) * b == q * -b - b;
    }
  }

  lemma Start(packet: Bytes, mtu: nat)
    ensures packet[Position(packet, mtu, 0)..] == packet
  {
  }

  /** One `islice` of the iterator. */
  lemma NextSlice(packet: Bytes, mtu: nat, i: nat, rest: Bytes, taken: nat)
    requires rest == packet[Position(packet, mtu, i)..] && taken == if mtu < |rest| then mtu else |rest|
    ensures rest[..taken] == Slice(packet, mtu, i) && rest[taken..] == packet[Position(packet, mtu, i + 1)..]
  {
    MoreSlices(packet, mtu, i);
    DropTwice(packet, Position(packet, mtu, i), taken);
  }

  /** One more datagram. */
  lemma NextFragment(packet: Bytes, messageId: int, count: int, mtu: nat, n: nat, sent: seq<Bytes>, datagram: Bytes)
    requires n < count < 256 && mtu < 0x8000 && 1 <= messageId <= MAX_SIZE_32 &&
      FragmentHeader(messageId, count, n, mtu).Ok?
    requires datagram == FragmentHeader(messageId, count, n, mtu).value + Slice(packet, mtu, n)
    requires sent == AllFragments(packet, messageId, count, mtu, n)
    ensures sent + [datagram] == AllFragments(packet, messageId, count, mtu, n + 1)
  {
    hide Slice, FragmentHeader;
  }

  lemma SendPlan(packet: Bytes, messageId: int, s: int)
    requires |packet| > s && 1 <= messageId <= MAX_SIZE_32
    ensures s < OVERHEAD ==> !Sendable(|packet|, s)
    ensures s > 0 ==> CeilDiv(|packet|, s) > 0
    ensures s < 0 ==> CeilDiv(|packet|, s) <= 0
    ensures s != 0 ==> (Sendable(|packet|, s) <==> 0 <= s - OVERHEAD < 0x8000 && CeilDiv(|packet|, s) < 256)
    ensures Sendable(|packet|, s) ==>
      CeilDiv(|packet|, s) > 0 &&
      Datagrams(packet, messageId, s) ==
        AllFragments(packet, messageId, CeilDiv(|packet|, s), s - OVERHEAD, CeilDiv(|packet|, s))
  {
    hide CeilDiv;
    if s != 0 {
      CountSign(|packet|, s);
    }
  }

  lemma FitsIff(messageId: int, count: int, id: int, mtu: int)
    requires 1 <= messageId <= MAX_SIZE_32 && 0 <= id < count && mtu >= 0
    ensures FragmentFits(messageId, count, id, mtu) <==> count < 256 && mtu < 0x8000
  {
  }

  lemma CountSign(length: nat, s: int)
    requires s != 0
    ensures s > 0 && length > 0 ==> CeilDiv(length, s) > 0
    ensures s < 0 ==> CeilDiv(length, s) <= 0
  {
    if s > 0 && length > 0 {
      Count(length, s);
    }
  }

  /** The sending loop before fragment `id`: what the iterator has left, and what has been sent. */
  ghost predicate Sending(packet: Bytes, messageId: int, count: int, mtu: nat, id: nat, rest: Bytes, sent: seq<Bytes>)
    requires 1 <= messageId <= MAX_SIZE_32
  {
    && rest == packet[Position(packet, mtu, id)..]
    && (id == 0 ==> sent == [])
    && (id > 0 ==> mtu < 0x8000 && count < 256)
    && (mtu < 0x8000 && id <= count < 256 ==> sent == AllFragments(packet, messageId, count, mtu, id))
  }

  lemma SendStart(packet: Bytes, messageId: int, count: int, mtu: nat)
    requires 1 <= messageId <= MAX_SIZE_32
    ensures Sending(packet, messageId, count, mtu, 0, packet, [])
  {
    Start(packet, mtu);
  }

  /** One turn of the loop. */
  lemma SendStep(
      packet: Bytes, messageId: int, count: int, mtu: nat, id: nat, rest: Bytes, sent: seq<Bytes>, taken: nat)
    requires 1 <= messageId <= MAX_SIZE_32 && id < count && Sending(packet, messageId, count, mtu, id, rest, sent)
    requires taken == if mtu < |rest| then mtu else |rest|
    ensures
      var header := FragmentHeader(messageId, count, id, mtu);
      if header.Ok? then
        mtu < 0x8000 && count < 256 &&
        Sending(packet, messageId, count, mtu, id + 1, rest[taken..], sent + [header.value + rest[..taken]])
      else
        sent == [] && (mtu >= 0x8000 || count >= 256)
  {
    FragmentHeaderEncodes(messageId, count, id, mtu);
    FitsIff(messageId, count, id, mtu);
    NextSlice(packet, mtu, id, rest, taken);
    hide FragmentHeader, FragmentFits, Slice, Position;
    var header := FragmentHeader(messageId, count, id, mtu);
    if header.Ok? {
      NextFragment(packet, messageId, count, mtu, id, sent, header.value + rest[..taken]);
    }
    hide AllFragments;
  }

  /** The sending loop of send_packet: the iterator is advanced first, so a negative slice size is a ValueError;
      then the header is packed, which fails for a count or a slice size that does not fit. */
  method SendFragments(packet: Bytes, messageId: int, count: int, mtu: int) returns (sent: seq<Bytes>, r: Outcome<()>)
    requires 1 <= messageId <= MAX_SIZE_32
    ensures count <= 0 ==> r == Ok(()) && sent == []
    ensures count > 0 && mtu < 0 ==> r == Crash && sent == []
    ensures count > 0 && mtu >= 0 && (mtu >= 0x8000 || count >= 256) ==> r == Broken && sent == []
    ensures 0 <= count < 256 && 0 <= mtu < 0x8000 ==>
      r == Ok(()) && sent == AllFragments(packet, messageId, count, mtu, count)
  {
    sent := [];
    if count <= 0 {
      return sent, Ok(());
    }
    if mtu < 0 {
      return sent, Crash;
    }
    hide FragmentHeader, AllFragments, Position;
    var rest := packet;
    SendStart(packet, messageId, count, mtu);
    for id := 0 to count
      invariant Sending(packet, messageId, count, mtu, id, rest, sent)
    {
      var taken := if mtu < |rest| then mtu else |rest|;
      SendStep(packet, messageId, count, mtu, id, rest, sent, taken);
      var slice := rest[..taken];
      rest := rest[taken..];
      var header := FragmentHeader(messageId, count, id, mtu);
      if !header.Ok? {
        return sent, Broken;
      }
      sent := sent + [header.value + slice];
    }
    return sent, Ok(());
  }

  /** SourceDatagramStream.send_packet; `messageId` stands for the random number.  ZeroDivisionError for a split
      size of zero and ValueError for a negative slice size are `Crash`; `sent` is what was sent before the
      failure. */
  method SendPacket(packet: Bytes, messageId: int, splitSize: int) returns (sent: seq<Bytes>, r: Outcome<()>)
    requires 1 <= messageId <= MAX_SIZE_32
    ensures Sendable(|packet|, splitSize) ==> r == Ok(()) && sent == Datagrams(packet, messageId, splitSize)
    ensures !Sendable(|packet|, splitSize) ==> sent == [] && (r == Ok(()) <==> splitSize < 0)
    ensures r == Crash <==> |packet| > splitSize && 0 <= splitSize < OVERHEAD
  {
    if |packet| <= splitSize {
      return [packet], Ok(());
    }
    hide *;
    SendPlan(packet, messageId, splitSize);
    if splitSize == 0 {
      return [], Crash;
    }
    sent, r := SendFragments(packet, messageId, CeilDiv(|packet|, splitSize), splitSize - OVERHEAD);
  }

  // ---------------------------------------------------------------- what the fragments carry

  lemma {:induction false} JoinAppend(parts: seq<Bytes>, last: Bytes)
    ensures Join(parts + [last]) == Join(parts) + last
  {
    if parts == [] {
      assert Join([last]) == last + Join([]) == last;
    } else {
      JoinAppend(parts[1..], last);
      assert (parts + [last])[1..] == parts[1..] + [last];
      Reassociate(parts[0], Join(parts[1..]), last);
    }
  }

  lemma Prefixes(packet: Bytes, p: nat, q: nat)
    requires p <= q <= |packet|
    ensures packet[..p] + packet[p..q] == packet[..q]
  {
  }

  lemma {:induction false} JoinSlices(packet: Bytes, mtu: nat, n: nat)
    ensures Join(Slices(packet, mtu, n)) == packet[..Position(packet, mtu, n)]
  {
    if n > 0 {
      JoinSlices(packet, mtu, n - 1);
      MoreSlices(packet, mtu, n - 1);
      JoinAppend(Slices(packet, mtu, n - 1), Slice(packet, mtu, n - 1));
      Prefixes(packet, Position(packet, mtu, n - 1), Position(packet, mtu, n));
    }
  }

  /** Every datagram of a split packet is read by the receiver as its slice. */
  lemma DatagramPart(packet: Bytes, messageId: int, splitSize: int, i: nat)
    requires |packet| > splitSize > 0 && Sendable(|packet|, splitSize) && 1 <= messageId <= MAX_SIZE_32
    requires i < CeilDiv(|packet|, splitSize)
    ensures |Datagrams(packet, messageId, splitSize)| == CeilDiv(|packet|, splitSize)
    ensures Parse(Datagrams(packet, messageId, splitSize)[i]) ==
      Ok(Part(messageId, CeilDiv(|packet|, splitSize), Piece(i, false, Slice(packet, splitSize - OVERHEAD, i))))
  {
    hide *;
    SendPlan(packet, messageId, splitSize);
    var count, mtu := CeilDiv(|packet|, splitSize), splitSize - OVERHEAD;
    FitsIff(messageId, count, i, mtu);
    FragmentAt(packet, messageId, count, mtu, count, i);
    ParseInvertsFragmentHeader(messageId, count, i, mtu, Slice(packet, mtu, i));
  }

  /** A packet of length `q * s + r` with `1 <= r <= s`, longer than `s`, arrives as its first
      `(q + 1) * (s - 12)` bytes; so nothing is lost exactly when `r + 12 * (q + 1) <= s`. */
  lemma ExactLoss(packet: Bytes, s: int)
    requires OVERHEAD < s < |packet|
    ensures
      var q := (|packet| - 1) / s;
      var r := |packet| - q * s;
      var joined := Join(Slices(packet, s - OVERHEAD, CeilDiv(|packet|, s)));
      && CeilDiv(|packet|, s) == q + 1 && 1 <= r <= s && q >= 1
      && joined == packet[..Min(|packet|, (q + 1) * (s - OVERHEAD))]
      && (joined == packet <==> r + OVERHEAD * (q + 1) <= s)
  {
    Count(|packet|, s);
    var q := (|packet| - 1) / s;
    Quotients(|packet|, s, q);
    hide *;
    LossOf(packet, s, q, q * s, (q + 1) * (s - OVERHEAD));
  }

  lemma LossOf(packet: Bytes, s: int, q: nat, before: int, kept: nat)
    requires OVERHEAD < s && kept == (q + 1) * (s - OVERHEAD) == before + s - OVERHEAD * (q + 1)
    ensures
      var joined := Join(Slices(packet, s - OVERHEAD, q + 1));
      && joined == packet[..Min(|packet|, kept)]
      && (joined == packet <==> (|packet| - before) + OVERHEAD * (q + 1) <= s)
  {
    JoinSlices(packet, s - OVERHEAD, q + 1);
    WholePrefix(packet, kept);
    hide Join, Slices;
  }

  lemma WholePrefix(packet: Bytes, n: nat)
    ensures packet[..Min(|packet|, n)] == packet <==> n >= |packet|
  {
    if n < |packet| {
      assert |packet[..n]| != |packet|;
    }
  }

  lemma Quotients(length: nat, s: int, q: int)
    requires OVERHEAD < s < length && q == (length - 1) / s
    ensures q >= 1 && (q + 1) * (s - OVERHEAD) >= 0
    ensures (q + 1) * (s - OVERHEAD) == q * s + s - OVERHEAD * (q + 1)
  {
    assert length - 1 == q * s + (length - 1) % s;
    assert q <= 0 ==> q * s <= 0;
  }

  /** The lengths that survive splitting at `s`. */
  predicate Lossless(length: nat, s: int)
    requires s > OVERHEAD
  {
    length <= s || length <= CeilDiv(length, s) * (s - OVERHEAD)
  }

  lemma LosslessIff(packet: Bytes, s: int)
    requires OVERHEAD < s < |packet|
    ensures Lossless(|packet|, s) <==> Join(Slices(packet, s - OVERHEAD, CeilDiv(|packet|, s))) == packet
  {
    ExactLoss(packet, s);
  }

  /** At the size the proxy uses: everything up to 2376 bytes survives and 2377 bytes do not, nothing above
      117612 bytes does and 117612 bytes do, and what survives stays below the receiver's limit of 100
      fragments. */
  lemma LossAt1200(length: nat)
    ensures length <= 2376 ==> Lossless(length, FRAGMENT_MAX_SIZE)
    ensures !Lossless(2377, FRAGMENT_MAX_SIZE)
    ensures length > 117612 ==> !Lossless(length, FRAGMENT_MAX_SIZE)
    ensures Lossless(117612, FRAGMENT_MAX_SIZE)
    ensures Lossless(length, FRAGMENT_MAX_SIZE) ==> Sendable(length, FRAGMENT_MAX_SIZE)
    ensures Lossless(length, FRAGMENT_MAX_SIZE) && length > FRAGMENT_MAX_SIZE ==>
      CeilDiv(length, FRAGMENT_MAX_SIZE) < MAX_FRAGMENTS_PER_PACKET
  {
    if length > 0 {
      Count(length, 1200);
    }
    Count(2377, 1200);
    Count(117612, 1200);
  }
}
