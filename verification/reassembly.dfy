/** SourceDatagramStream.handle_fragments, on values: the table of partial packets and what one datagram does to
    it. */
module Reassembly {
  import opened Outcomes
  import opened Wire
  import opened Pylru
  import opened Pieces

  /** `fragment_count` (at most 100) and the fragments received so far. */
  datatype Partial = Partial(expected: nat, pieces: seq<Piece>)

  type Table = Lru<Partial>

  /** bz2.decompress, which may fail. */
  type Decompress = Bytes -> Option<Bytes>

  /** A datagram as the receiver sees it: an ordinary packet, a fragment, or something it cannot decode. */
  datatype Incoming = Plain(packet: Bytes) | Fragment(messageId: int, count: nat, piece: Piece) | Bad

  /** What a call gives: a whole packet, None, BrokenMessageError, or an error of the decompressor. */
  datatype Delivery = Whole(data: Bytes) | Pending | Malformed | Corrupt

  function Ids(pieces: seq<Piece>): set<int> {
    set p | p in pieces :: p.id
  }

  /** `b''.join(f.content for f in pieces)` */
  function Contents(pieces: seq<Piece>, decompress: Decompress): Option<Bytes> {
    if pieces == [] then Some([]) else
    var first := if pieces[0].compressed then decompress(pieces[0].body) else Some(pieces[0].body);
    var rest := Contents(pieces[1..], decompress);
    if first.Some? && rest.Some? then Some(first.value + rest.value) else None
  }

  function InsertById(p: Piece, sorted: seq<Piece>): seq<Piece> {
    if sorted == [] || p.id <= sorted[0].id then [p] + sorted else [sorted[0]] + InsertById(p, sorted[1..])
  }

  /** `list.sort(key=fragment_id)` */
  function SortById(pieces: seq<Piece>): (r: seq<Piece>)
    ensures |r| == |pieces|
  {
    if pieces == [] then [] else
    InsertLength(pieces[0], SortById(pieces[1..]));
    InsertById(pieces[0], SortById(pieces[1..]))
  }

  lemma {:induction false} InsertLength(p: Piece, sorted: seq<Piece>)
    ensures |InsertById(p, sorted)| == |sorted| + 1
  {
    if sorted != [] && p.id > sorted[0].id {
      InsertLength(p, sorted[1..]);
    }
  }

  function Deliver(pieces: seq<Piece>, decompress: Decompress): Delivery {
    match Contents(SortById(pieces), decompress) case Some(data) => Whole(data) case None => Corrupt
  }

  function Added(pieces: seq<Piece>, piece: Piece): seq<Piece> {
    if piece.id in Ids(pieces) then pieces else pieces + [piece]
  }

  /** The entry for a fragment: the one in the table, or a new one with the count of this fragment. */
  function Opened(t: Table, messageId: int, count: nat): Table {
    if messageId in t.items then Touch(t, messageId)
    else Put(t, messageId, Partial(if count > MAX_FRAGMENTS_PER_PACKET then MAX_FRAGMENTS_PER_PACKET else count, []))
  }

  function HandlePart(t: Table, messageId: int, count: nat, piece: Piece, decompress: Decompress): (Table, Delivery) {
    var t1 := Opened(t, messageId, count);
    var partial := t1.items[messageId];
    var pieces := Added(partial.pieces, piece);
    if |pieces| < partial.expected then
      (Lru(t1.order, t1.items[messageId := Partial(partial.expected, pieces)]), Pending)
    else
      (Drop(t1, messageId), Deliver(pieces, decompress))
  }

  function Handle(t: Table, d: Incoming, decompress: Decompress): (Table, Delivery) {
    match d
    case Plain(packet) => (t, Whole(packet))
    case Fragment(messageId, count, piece) => HandlePart(t, messageId, count, piece, decompress)
    case Bad => (t, Malformed)
  }

  /** The table and the deliveries of a run of datagrams. */
  function After(t: Table, ds: seq<Incoming>, decompress: Decompress): Table
    decreases |ds|
  {
    if ds == [] then t else After(Handle(t, ds[0], decompress).0, ds[1..], decompress)
  }

  function Deliveries(t: Table, ds: seq<Incoming>, decompress: Decompress): (r: seq<Delivery>)
    ensures |r| == |ds|
    decreases |ds|
  {
    if ds == [] then [] else
    [Handle(t, ds[0], decompress).1] + Deliveries(Handle(t, ds[0], decompress).0, ds[1..], decompress)
  }

  // ---------------------------------------------------------------- the table invariant

  ghost predicate Distinct(pieces: seq<Piece>) {
    forall i, j :: 0 <= i < j < |pieces| ==> pieces[i].id != pieces[j].id
  }

  ghost predicate ValidPartial(p: Partial) {
    Distinct(p.pieces) && 1 <= |p.pieces| < p.expected <= MAX_FRAGMENTS_PER_PACKET
  }

  ghost predicate ValidTable(t: Table) {
    ValidLru(t) && forall k :: k in t.items ==> ValidPartial(t.items[k])
  }

  lemma AddedDistinct(pieces: seq<Piece>, piece: Piece)
    requires Distinct(pieces)
    ensures Distinct(Added(pieces, piece)) && |pieces| <= |Added(pieces, piece)| && 1 <= |Added(pieces, piece)|
    ensures Ids(Added(pieces, piece)) == Ids(pieces) + {piece.id}
  {
    var added := Added(pieces, piece);
    if piece.id !in Ids(pieces) {
      assert forall i :: 0 <= i < |pieces| ==> pieces[i] in pieces && pieces[i].id in Ids(pieces);
      assert piece in added;
      forall x ensures x in Ids(added) <==> x in Ids(pieces) + {piece.id} {
        if x in Ids(pieces) {
          var p :| p in pieces && p.id == x;
          assert p in added;
        }
      }
    } else {
      var p :| p in pieces && p.id == piece.id;
    }
  }

  lemma OpenedValid(t: Table, messageId: int, count: nat)
    requires ValidTable(t)
    ensures ValidLru(Opened(t, messageId, count)) && messageId in Opened(t, messageId, count).items
    ensures Distinct(Opened(t, messageId, count).items[messageId].pieces)
    ensures Opened(t, messageId, count).items[messageId].expected <= MAX_FRAGMENTS_PER_PACKET
    ensures forall k :: k in Opened(t, messageId, count).items && k != messageId ==>
      k in t.items && Opened(t, messageId, count).items[k] == t.items[k]
  {
    if messageId in t.items {
      TouchValid(t, messageId);
    } else {
      PutValid(t, messageId, Partial(if count > MAX_FRAGMENTS_PER_PACKET then MAX_FRAGMENTS_PER_PACKET else count, []));
    }
  }

  /** After every call, on any bytes: at most 1024 entries, each with pairwise distinct fragment ids, at least
      one of them and fewer than expected, and never more than 100 expected; malformed datagrams leave the table
      as it was. */
  lemma HandleValid(t: Table, d: Incoming, decompress: Decompress)
    requires ValidTable(t)
    ensures ValidTable(Handle(t, d, decompress).0)
    ensures Handle(t, d, decompress).1.Malformed? ==> Handle(t, d, decompress).0 == t
  {
    if d.Fragment? {
      HandlePartValid(t, d.messageId, d.count, d.piece, decompress);
    }
  }

  lemma HandlePartValid(t: Table, messageId: int, count: nat, piece: Piece, decompress: Decompress)
    requires ValidTable(t)
    ensures ValidTable(HandlePart(t, messageId, count, piece, decompress).0)
  {
    var t1 := Opened(t, messageId, count);
    OpenedValid(t, messageId, count);
    AddedDistinct(t1.items[messageId].pieces, piece);
    DropValid(t1, messageId);
  }

  /** The first fragment of a message opens an entry with its count, which is trimmed to 100. */
  lemma FirstFragment(t: Table, m: int, count: nat, piece: Piece, decompress: Decompress)
    requires ValidTable(t) && m !in t.items && count >= 2
    ensures var (t', r) := Handle(t, Fragment(m, count, piece), decompress);
      r == Pending && m in t'.items && t'.items[m] == Partial(if count <= 100 then count else 100, [piece])
  {
    OpenedValid(t, m, count);
    assert Ids([]) == {};
    assert [] + [piece] == [piece];
    hide ValidTable, ValidLru, Without, Deliver, Drop;
  }

  lemma {:induction false} AfterValid(t: Table, ds: seq<Incoming>, decompress: Decompress)
    requires ValidTable(t)
    ensures ValidTable(After(t, ds, decompress))
    decreases |ds|
  {
    if ds != [] {
      HandleValid(t, ds[0], decompress);
      AfterValid(Handle(t, ds[0], decompress).0, ds[1..], decompress);
    }
  }
}
