/** The integer formats of Python's `struct` that the message fields use. */
module Wire {
  import opened Outcomes

  type Byte = b: int | 0 <= b < 256

  type Bytes = seq<Byte>

  /** `B` is (1, unsigned), `<h` is (2, signed, little), `!H` is (2, unsigned, big) and so on. */
  datatype IntFormat = IntFormat(width: nat, signed: bool, bigEndian: bool)

  predicate ValidFormat(f: IntFormat) {
    f.width >= 1
  }

  function Pow256(w: nat): (p: nat)
    ensures p >= 1
  {
    if w == 0 then 1 else 256 * Pow256(w - 1)
  }

  /** Half of the format's range: the bound of a signed value. */
  function Half(w: nat): (h: int)
    requires w >= 1
    ensures h >= 1 && 2 * h == Pow256(w)
  {
    128 * Pow256(w - 1)
  }

  function LowFirst(n: nat, w: nat): (bs: Bytes)
    ensures |bs| == w
  {
    if w == 0 then [] else [n % 256] + LowFirst(n / 256, w - 1)
  }

  function FromLowFirst(bs: Bytes): (n: nat)
    ensures n < Pow256(|bs|)
  {
    if bs == [] then 0 else bs[0] + 256 * FromLowFirst(bs[1..])
  }

  lemma {:induction false} FromLowFirstInvertsLowFirst(n: nat, w: nat)
    requires n < Pow256(w)
    ensures FromLowFirst(LowFirst(n, w)) == n
  {
    if w > 0 {
      FromLowFirstInvertsLowFirst(n / 256, w - 1);
      assert LowFirst(n, w)[1..] == LowFirst(n / 256, w - 1);
    }
  }

  lemma {:induction false} LowFirstInvertsFromLowFirst(bs: Bytes)
    ensures LowFirst(FromLowFirst(bs), |bs|) == bs
  {
    if bs != [] {
      LowFirstInvertsFromLowFirst(bs[1..]);
      assert FromLowFirst(bs) % 256 == bs[0] && FromLowFirst(bs) / 256 == FromLowFirst(bs[1..]);
    }
  }

  function Reversed(bs: Bytes): (r: Bytes)
    ensures |r| == |bs|
    ensures forall i :: 0 <= i < |bs| ==> r[i] == bs[|bs| - 1 - i]
  {
    if bs == [] then [] else Reversed(bs[1..]) + [bs[0]]
  }

  lemma ReversedTwice(bs: Bytes)
    ensures Reversed(Reversed(bs)) == bs
  {
  }

  /** The values `struct.pack` accepts for the format. */
  predicate InRange(f: IntFormat, v: int)
    requires ValidFormat(f)
  {
    if f.signed then -Half(f.width) <= v < Half(f.width) else 0 <= v < Pow256(f.width)
  }

  /** `struct.pack`: a value out of range raises struct.error, which becomes BrokenMessageError. */
  function Pack(f: IntFormat, v: int): (r: Outcome<Bytes>)
    requires ValidFormat(f)
    ensures r.Ok? <==> InRange(f, v)
    ensures r.Ok? ==> |r.value| == f.width
    ensures !r.Crash?
  {
    if !InRange(f, v) then Broken else
    var low := LowFirst(if v < 0 then v + 2 * Half(f.width) else v, f.width);
    Ok(if f.bigEndian then Reversed(low) else low)
  }

  /** `struct.unpack` on exactly the bytes of the format. */
  function Unpack(f: IntFormat, bs: Bytes): (v: int)
    requires ValidFormat(f) && |bs| == f.width
    ensures InRange(f, v)
  {
    var n := FromLowFirst(if f.bigEndian then Reversed(bs) else bs);
    if f.signed && n >= Half(f.width) then n - Pow256(f.width) else n
  }

  lemma UnpackInvertsPack(f: IntFormat, v: int)
    requires ValidFormat(f) && InRange(f, v)
    ensures Unpack(f, Pack(f, v).value) == v
  {
    var n := if v < 0 then v + 2 * Half(f.width) else v;
    FromLowFirstInvertsLowFirst(n, f.width);
    ReversedTwice(LowFirst(n, f.width));
  }

  lemma PackInvertsUnpack(f: IntFormat, bs: Bytes)
    requires ValidFormat(f) && |bs| == f.width
    ensures Pack(f, Unpack(f, bs)) == Ok(bs)
  {
    hide Pow256, Half, LowFirst, FromLowFirst, Reversed;
    var low := if f.bigEndian then Reversed(bs) else bs;
    LowFirstInvertsFromLowFirst(low);
    ReversedTwice(bs);
    var v := Unpack(f, bs);
    assert (if v < 0 then v + 2 * Half(f.width) else v) == FromLowFirst(low);
  }

  /** The number that two bytes stand for, low byte first and in two's complement. */
  function ShortOf(b: Bytes): int
    requires |b| == 2
  {
    var low: int, high: int := b[0], b[1];
    low + 256 * high - if high < 128 then 0 else 0x1_0000
  }

  /** The same for four bytes. */
  function LongOf(b: Bytes): int
    requires |b| == 4
  {
    var b0: int, b1: int, b2: int, b3: int := b[0], b[1], b[2], b[3];
    b0 + 256 * b1 + 0x1_0000 * b2 + 0x100_0000 * b3 - if b3 < 128 then 0 else 0x1_0000_0000
  }

  lemma ShortIs(b: Bytes)
    requires |b| == 2
    ensures Unpack(IntFormat(2, true, false), b) == ShortOf(b)
  {
    assert FromLowFirst(b[1..]) == b[1] + 256 * FromLowFirst(b[1..][1..]);
    assert Pow256(1) == 256 && Pow256(2) == 0x1_0000;
  }

  lemma LongIs(b: Bytes)
    requires |b| == 4
    ensures Unpack(IntFormat(4, true, false), b) == LongOf(b)
  {
    DropTwice(b, 1, 1);
    DropTwice(b, 2, 1);
    DropTwice(b, 3, 1);
    assert FromLowFirst(b) == b[0] + 256 * FromLowFirst(b[1..]);
    assert FromLowFirst(b[1..]) == b[1] + 256 * FromLowFirst(b[2..]);
    assert FromLowFirst(b[2..]) == b[2] + 256 * FromLowFirst(b[3..]);
    assert FromLowFirst(b[3..]) == b[3] + 256 * FromLowFirst(b[4..]);
    assert Pow256(1) == 256 && Pow256(2) == 0x1_0000 && Pow256(3) == 0x100_0000 && Pow256(4) == 0x1_0000_0000;
    assert Half(4) == 0x8000_0000;
  }

  /** What `struct.pack` writes for a short and for a long. */
  lemma PackIs(b: Bytes)
    ensures |b| == 2 ==> Pack(IntFormat(2, true, false), ShortOf(b)) == Ok(b)
    ensures |b| == 4 ==> Pack(IntFormat(4, true, false), LongOf(b)) == Ok(b)
  {
    hide Pow256, Half, LowFirst, FromLowFirst, Reversed, Pack, Unpack;
    if |b| == 2 {
      ShortIs(b);
      PackInvertsUnpack(IntFormat(2, true, false), b);
    } else if |b| == 4 {
      LongIs(b);
      PackInvertsUnpack(IntFormat(4, true, false), b);
    }
  }

  lemma Reassociate<T>(a: seq<T>, b: seq<T>, c: seq<T>)
    ensures (a + b) + c == a + (b + c)
  {
  }

  lemma DropTwice<T>(s: seq<T>, a: nat, b: nat)
    requires a + b <= |s|
    ensures s[a..][b..] == s[a + b..]
  {
  }
}
