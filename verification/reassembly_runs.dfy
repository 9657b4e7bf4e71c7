/** Laws about whole runs of datagrams. */
module ReassemblyRuns {
  import opened Outcomes
  import opened Wire
  import opened Pieces
  import opened Pylru
  import opened Reassembly

  predicate IsFor(d: Incoming, m: int) {
    d.Fragment? && d.messageId == m
  }

  /** The message ids other than `m` that a run touches. */
  function Others(ds: seq<Incoming>, m: int): set<int> {
    if ds == [] then {} else
    (if ds[0].Fragment? && ds[0].messageId != m then {ds[0].messageId} else {}) + Others(ds[1..], m)
  }

  // ---------------------------------------------------------------- eviction

  /** One datagram for another id leaves the entry of `m` alone, unless 1024 other ids were touched since its last
      fragment. */
  lemma OtherKeeps(t: Table, d: Incoming, m: int, touched: set<int>, decompress: Decompress)
    requires ValidTable(t) && !IsFor(d, m) && NewerIn(t, m, touched)
    ensures
      var t' := Handle(t, d, decompress).0;
      var touched' := touched + (if d.Fragment? then {d.messageId} else {});
      (NewerIn(t', m, touched') && t'.items[m] == t.items[m]) || |touched'| >= CAPACITY
  {
    if d.Fragment? {
      var x := d.messageId;
      var t1 := Opened(t, x, d.count);
      OpenedValid(t, x, d.count);
      if x in t.items {
        TouchKeepsNewer(t, x, m, touched);
      } else {
        PutKeepsNewer(t, x, t1.items[x], m, touched);
      }
      if NewerIn(t1, m, touched + {x}) {
        DropKeepsNewer(t1, x, m, touched + {x});
      }
    }
  }

  /** In any run without a fragment of `m`, the entry of `m` disappears only if 1024 other ids were touched
      since its own last fragment. */
  lemma {:induction false} DisappearsOnlyByEviction(
      t: Table, ds: seq<Incoming>, m: int, touched: set<int>, decompress: Decompress)
    requires ValidTable(t) && NewerIn(t, m, touched)
    requires forall d :: d in ds ==> !IsFor(d, m)
    ensures
      (m in After(t, ds, decompress).items && After(t, ds, decompress).items[m] == t.items[m])
      || |touched + Others(ds, m)| >= CAPACITY
    decreases |ds|
  {
    if ds != [] {
      var t' := Handle(t, ds[0], decompress).0;
      var touched' := touched + (if ds[0].Fragment? then {ds[0].messageId} else {});
      HandleValid(t, ds[0], decompress);
      OtherKeeps(t, ds[0], m, touched, decompress);
      assert touched' + Others(ds[1..], m) == touched + Others(ds, m);
      if |touched'| >= CAPACITY {
        Larger(touched', touched + Others(ds, m));
      } else {
        DisappearsOnlyByEviction(t', ds[1..], m, touched', decompress);
      }
    }
  }

  lemma Pick<T>(s: set<T>) returns (x: T)
    requires s != {}
    ensures x in s
  {
    x :| x in s;
  }

  lemma {:induction false} Larger(a: set<int>, b: set<int>)
    requires a <= b
    ensures |a| <= |b|
  {
    if a != {} {
      var x := Pick(a);
      Larger(a - {x}, b - {x});
    }
  }

  /** The run that starts with a fragment of `m` which does not complete it: from then on only eviction can
      remove it. */
  lemma FragmentIsNewest(t: Table, m: int, count: nat, piece: Piece, decompress: Decompress)
    requires ValidTable(t)
    requires HandlePart(t, m, count, piece, decompress).1.Pending?
    ensures NewerIn(HandlePart(t, m, count, piece, decompress).0, m, {})
  {
    if m in t.items {
      TouchNewest(t, m);
    } else {
      PutNewest(t, m, Partial(if count > MAX_FRAGMENTS_PER_PACKET then MAX_FRAGMENTS_PER_PACKET else count, []));
    }
  }

  /** A partial packet that is not delivered disappears only if 1024 other ids were touched since its own last
      fragment. */
  lemma SurvivesUntilEvicted(t: Table, m: int, count: nat, piece: Piece, ds: seq<Incoming>, decompress: Decompress)
    requires ValidTable(t) && HandlePart(t, m, count, piece, decompress).1.Pending?
    requires forall d :: d in ds ==> !IsFor(d, m)
    ensures
      var t' := HandlePart(t, m, count, piece, decompress).0;
      var t'' := After(t', ds, decompress);
      m in t'.items && ((m in t''.items && t''.items[m] == t'.items[m]) || |Others(ds, m)| >= CAPACITY)
  {
    HandlePartValid(t, m, count, piece, decompress);
    FragmentIsNewest(t, m, count, piece, decompress);
    DisappearsOnlyByEviction(HandlePart(t, m, count, piece, decompress).0, ds, m, {}, decompress);
    assert {} + Others(ds, m) == Others(ds, m);
  }

  // ---------------------------------------------------------------- the unbounded map

  /** The same receiver with a dictionary that never evicts. */
  function HandleUnbounded(u: map<int, Partial>, d: Incoming, decompress: Decompress): (map<int, Partial>, Delivery) {
    match d
    case Plain(packet) => (u, Whole(packet))
    case Bad => (u, Malformed)
    case Fragment(m, count, piece) =>
      var partial := if m in u then u[m]
        else Partial(if count > MAX_FRAGMENTS_PER_PACKET then MAX_FRAGMENTS_PER_PACKET else count, []);
      var pieces := Added(partial.pieces, piece);
      if |pieces| < partial.expected then (u[m := Partial(partial.expected, pieces)], Pending)
      else (u - {m}, Deliver(pieces, decompress))
  }

  function DeliveriesUnbounded(u: map<int, Partial>, ds: seq<Incoming>, decompress: Decompress): seq<Delivery>
    decreases |ds|
  {
    if ds == [] then [] else
    [HandleUnbounded(u, ds[0], decompress).1]
      + DeliveriesUnbounded(HandleUnbounded(u, ds[0], decompress).0, ds[1..], decompress)
  }

  /** At most 1024 ids are ever live at once, counting the one a fragment has just opened. */
  predicate FewLive(u: map<int, Partial>, ds: seq<Incoming>, decompress: Decompress)
    decreases |ds|
  {
    ds == [] ||
    ((ds[0].Fragment? && ds[0].messageId !in u ==> |u| < CAPACITY)
     && FewLive(HandleUnbounded(u, ds[0], decompress).0, ds[1..], decompress))
  }

  lemma OrderSize(t: Table)
    requires ValidLru(t)
    ensures |t.order| == |t.items|
  {
    DistinctBounded(t.order, t.items.Keys);
    SetBounded(t.items.Keys, t.order);
  }

  lemma {:induction false} SetBounded(s: set<int>, xs: seq<int>)
    requires forall x :: x in s ==> x in xs
    ensures |s| <= |xs|
  {
    if s != {} {
      var x := Pick(s);
      SetBounded(s - {x}, Without(xs, x));
    }
  }

  /** The entry of a fragment in a table with room. */
  lemma SameEntry(t: Table, m: int, count: nat)
    requires ValidLru(t) && (m !in t.items ==> |t.items| < CAPACITY)
    ensures
      var partial := if m in t.items then t.items[m]
        else Partial(if count > MAX_FRAGMENTS_PER_PACKET then MAX_FRAGMENTS_PER_PACKET else count, []);
      Opened(t, m, count).items == t.items[m := partial]
  {
    OrderSize(t);
    hide ValidLru, Without;
  }

  lemma SameStep(t: Table, d: Incoming, decompress: Decompress)
    requires ValidTable(t)
    requires d.Fragment? && d.messageId !in t.items ==> |t.items| < CAPACITY
    ensures Handle(t, d, decompress).0.items == HandleUnbounded(t.items, d, decompress).0
    ensures Handle(t, d, decompress).1 == HandleUnbounded(t.items, d, decompress).1
  {
    assert ValidLru(t);
    hide ValidTable, ValidLru, Opened, Added, Deliver, Without;
    if d.Fragment? {
      SameEntry(t, d.messageId, d.count);
      var partial := if d.messageId in t.items then t.items[d.messageId]
        else Partial(if d.count > MAX_FRAGMENTS_PER_PACKET then MAX_FRAGMENTS_PER_PACKET else d.count, []);
      Replaced(t.items, d.messageId, partial, Partial(partial.expected, Added(partial.pieces, d.piece)));
    }
  }

  lemma Replaced<V>(m: map<int, V>, k: int, v: V, w: V)
    ensures m[k := v][k := w] == m[k := w] && m[k := v] - {k} == m - {k} && m[k := v][k] == v
  {
  }

  /** The bounded table gives what the unbounded dictionary gives, on every run that keeps few ids live. */
  lemma {:induction false} RefinesUnbounded(t: Table, ds: seq<Incoming>, decompress: Decompress)
    requires ValidTable(t) && FewLive(t.items, ds, decompress)
    ensures Deliveries(t, ds, decompress) == DeliveriesUnbounded(t.items, ds, decompress)
    decreases |ds|
  {
    if ds != [] {
      SameStep(t, ds[0], decompress);
      HandleValid(t, ds[0], decompress);
      RefinesUnbounded(Handle(t, ds[0], decompress).0, ds[1..], decompress);
    }
  }

  // ---------------------------------------------------------------- conservation of deliveries

  function Arrivals(ds: seq<Incoming>, m: int, j: int): nat {
    if ds == [] then 0 else
    (if IsFor(ds[0], m) && ds[0].piece.id == j then 1 else 0) + Arrivals(ds[1..], m, j)
  }

  /** How often `m` is completed, whether or not its content can be decompressed. */
  function Completions(t: Table, ds: seq<Incoming>, m: int, decompress: Decompress): nat
    decreases |ds|
  {
    if ds == [] then 0 else
    (if IsFor(ds[0], m) && !Handle(t, ds[0], decompress).1.Pending? then 1 else 0)
    + Completions(Handle(t, ds[0], decompress).0, ds[1..], m, decompress)
  }

  /** All fragments of `m` say that there are `n` of them, and are numbered below `n`. */
  predicate Agreeing(ds: seq<Incoming>, m: int, n: nat) {
    forall d :: d in ds && IsFor(d, m) ==> d.count == n && 0 <= d.piece.id < n
  }

  /** The numbers below `n`. */
  function Range(n: nat): (r: set<int>)
    ensures forall i :: i in r <==> 0 <= i < n
  {
    if n == 0 then {} else Range(n - 1) + {n - 1}
  }

  lemma {:induction false} RangeSize(n: nat)
    ensures |Range(n)| == n
  {
    if n > 0 {
      RangeSize(n - 1);
    }
  }

  lemma {:induction false} IdsSize(pieces: seq<Piece>)
    requires Distinct(pieces)
    ensures |Ids(pieces)| == |pieces|
  {
    if pieces != [] {
      var rest := pieces[1..];
      assert Distinct(rest);
      IdsSize(rest);
      assert forall p :: p in pieces <==> p == pieces[0] || p in rest;
      assert Ids(pieces) == {pieces[0].id} + Ids(rest);
      assert pieces[0].id !in Ids(rest);
    }
  }

  /** Pigeonhole: `n` distinct numbers below `n` are all of them. */
  lemma AllThere(pieces: seq<Piece>, n: nat)
    requires Distinct(pieces) && |pieces| >= n && Ids(pieces) <= Range(n)
    ensures Ids(pieces) == Range(n) && |pieces| == n
  {
    RangeSize(n);
    IdsSize(pieces);
    Larger(Ids(pieces), Range(n));
    if Ids(pieces) != Range(n) {
      var i :| i in Range(n) && i !in Ids(pieces);
      Larger(Ids(pieces) + {i}, Range(n));
    }
  }

  /** The entry of `m`, if there is one, has been filled by agreeing fragments. */
  predicate AgreeingEntry(t: Table, m: int, n: nat) {
    m in t.items ==> t.items[m].expected == n && Ids(t.items[m].pieces) <= Range(n)
  }

  predicate Holds(t: Table, m: int, j: int) {
    m in t.items && j in Ids(t.items[m].pieces)
  }

  lemma OtherEntry(t: Table, d: Incoming, m: int, decompress: Decompress)
    requires ValidTable(t) && !IsFor(d, m)
    ensures var t' := Handle(t, d, decompress).0; m in t'.items ==> m in t.items && t'.items[m] == t.items[m]
  {
    if d.Fragment? {
      OpenedValid(t, d.messageId, d.count);
    }
  }

  lemma OwnFragment(t: Table, d: Incoming, m: int, n: nat, j: int, decompress: Decompress)
    requires ValidTable(t) && IsFor(d, m) && d.count == n && 0 <= d.piece.id < n && 1 <= n <= MAX_FRAGMENTS_PER_PACKET
    requires AgreeingEntry(t, m, n) && 0 <= j < n
    ensures
      var (t', delivery) := Handle(t, d, decompress);
      && AgreeingEntry(t', m, n)
      && (delivery.Pending? ==> (Holds(t', m, j) <==> Holds(t, m, j) || d.piece.id == j))
      && (!delivery.Pending? ==> m !in t'.items && (Holds(t, m, j) || d.piece.id == j))
  {
    var t1 := Opened(t, m, n);
    OpenedValid(t, m, n);
    AddedDistinct(t1.items[m].pieces, d.piece);
    var pieces := Added(t1.items[m].pieces, d.piece);
    assert Ids([]) == {};
    if |pieces| >= n {
      AllThere(pieces, n);
    }
  }

  /** For every one of its fragments: a message is not completed more often than that fragment has arrived, whatever
      else arrives, however often entries are evicted and late duplicates open new ones. */
  lemma {:induction false} DeliveryConservation(
      t: Table, ds: seq<Incoming>, m: int, n: nat, j: int, decompress: Decompress)
    requires ValidTable(t) && AgreeingEntry(t, m, n)
    requires 1 <= n <= MAX_FRAGMENTS_PER_PACKET && Agreeing(ds, m, n) && 0 <= j < n
    ensures Completions(t, ds, m, decompress) <= Arrivals(ds, m, j) + if Holds(t, m, j) then 1 else 0
    decreases |ds|
  {
    if ds != [] {
      HandleValid(t, ds[0], decompress);
      if IsFor(ds[0], m) {
        OwnFragment(t, ds[0], m, n, j, decompress);
      } else {
        OtherEntry(t, ds[0], m, decompress);
      }
      DeliveryConservation(Handle(t, ds[0], decompress).0, ds[1..], m, n, j, decompress);
    }
  }

  // ---------------------------------------------------------------- reassembly inverts splitting

  /** The pieces of a packet in order. */
  predicate InOrder(parts: seq<Piece>) {
    forall i :: 0 <= i < |parts| ==> parts[i].id == i
  }

  /** The fragments of `m` are those of one packet with these `parts`. */
  predicate FromPacket(ds: seq<Incoming>, m: int, parts: seq<Piece>) {
    forall d :: d in ds && IsFor(d, m) ==>
      d.count == |parts| && 0 <= d.piece.id < |parts| && d.piece == parts[d.piece.id]
  }

  /** The content of a piece: its body, or what the decompressor makes of it. */
  function ContentOf(p: Piece, decompress: Decompress): Option<Bytes> {
    if p.compressed then decompress(p.body) else Some(p.body)
  }

  /** What a complete packet gives: the contents of its pieces joined in order, or the error of the decompressor when
      one of them has no content. */
  function Packet(parts: seq<Piece>, decompress: Decompress): Delivery {
    if forall i :: 0 <= i < |parts| ==> ContentOf(parts[i], decompress).Some? then
      Whole(Join(seq(|parts|, i requires 0 <= i < |parts| => ContentOf(parts[i], decompress).value)))
    else Corrupt
  }

  /** The fragments of `m` that occur in a run. */
  function Got(ds: seq<Incoming>, m: int): set<int> {
    if ds == [] then {} else (if IsFor(ds[0], m) then {ds[0].piece.id} else {}) + Got(ds[1..], m)
  }

  predicate PiecesOf(pieces: seq<Piece>, parts: seq<Piece>) {
    forall p :: p in pieces ==> 0 <= p.id < |parts| && p == parts[p.id]
  }

  predicate Ascending(pieces: seq<Piece>) {
    forall i, j :: 0 <= i < j < |pieces| ==> pieces[i].id < pieces[j].id
  }

  lemma {:induction false} InsertSorted(p: Piece, sorted: seq<Piece>)
    requires Ascending(sorted) && forall q :: q in sorted ==> q.id != p.id
    ensures Ascending(InsertById(p, sorted))
    ensures forall q :: q in InsertById(p, sorted) <==> q == p || q in sorted
  {
    if sorted != [] && p.id > sorted[0].id {
      assert sorted == [sorted[0]] + sorted[1..];
      var rest := sorted[1..];
      InsertSorted(p, rest);
      assert forall q :: q in InsertById(p, rest) ==> sorted[0].id < q.id by {
        forall q | q in rest ensures sorted[0].id < q.id {
          var i :| 0 <= i < |rest| && rest[i] == q;
          assert sorted[i + 1] == q;
        }
      }
    }
  }

  lemma {:induction false} SortSorts(pieces: seq<Piece>)
    requires Distinct(pieces)
    ensures Ascending(SortById(pieces))
    ensures forall q :: q in SortById(pieces) <==> q in pieces
  {
    if pieces != [] {
      assert pieces == [pieces[0]] + pieces[1..];
      SortSorts(pieces[1..]);
      InsertSorted(pieces[0], SortById(pieces[1..]));
    }
  }

  /** There is only one ascending sequence of `n` numbers below `n`. */
  lemma {:induction false} AscendingIs(pieces: seq<Piece>, n: nat, i: nat)
    requires Ascending(pieces) && |pieces| == n && i < n
    requires forall p :: p in pieces ==> 0 <= p.id < n
    ensures pieces[i].id == i
  {
    AtLeast(pieces, i);
    AtMost(pieces, n, n - 1 - i);
  }

  lemma {:induction false} AtLeast(pieces: seq<Piece>, i: nat)
    requires Ascending(pieces) && i < |pieces| && forall p :: p in pieces ==> 0 <= p.id
    ensures pieces[i].id >= i
  {
    if i > 0 {
      AtLeast(pieces, i - 1);
    }
  }

  lemma {:induction false} AtMost(pieces: seq<Piece>, n: nat, k: nat)
    requires Ascending(pieces) && |pieces| == n && k < n && forall p :: p in pieces ==> p.id < n
    ensures pieces[n - 1 - k].id <= n - 1 - k
  {
    if k > 0 {
      AtMost(pieces, n, k - 1);
    }
  }

  lemma {:induction false} ContentsJoin(pieces: seq<Piece>, decompress: Decompress)
    ensures Contents(pieces, decompress).Some? <==>
      forall i :: 0 <= i < |pieces| ==> ContentOf(pieces[i], decompress).Some?
    ensures Contents(pieces, decompress).Some? ==>
      Contents(pieces, decompress).value ==
        Join(seq(|pieces|, i requires 0 <= i < |pieces| => ContentOf(pieces[i], decompress).value))
  {
    if pieces != [] {
      var rest := pieces[1..];
      ContentsJoin(rest, decompress);
      assert forall i :: 0 <= i < |rest| ==> rest[i] == pieces[i + 1];
      if Contents(pieces, decompress).Some? {
        var all := seq(|pieces|, i requires 0 <= i < |pieces| => ContentOf(pieces[i], decompress).value);
        assert all[1..] == seq(|rest|, i requires 0 <= i < |rest| => ContentOf(rest[i], decompress).value);
      }
    }
  }

  /** All pieces of a packet, in whatever order they came, compressed or not, give the packet. */
  lemma CompleteDelivers(pieces: seq<Piece>, parts: seq<Piece>, decompress: Decompress)
    requires Distinct(pieces) && PiecesOf(pieces, parts) && |pieces| == |parts| && InOrder(parts)
    ensures Deliver(pieces, decompress) == Packet(parts, decompress)
  {
    SortSorts(pieces);
    var sorted := SortById(pieces);
    forall i | 0 <= i < |parts| ensures sorted[i] == parts[i] {
      AscendingIs(sorted, |parts|, i);
      assert sorted[i] in sorted;
    }
    assert sorted == parts;
    ContentsJoin(parts, decompress);
    hide ContentOf, SortById;
  }

  /** While a packet is being collected: `got` has arrived, and everything newer in the table is in `touched`. */
  ghost predicate Collecting(t: Table, m: int, parts: seq<Piece>, got: set<int>, touched: set<int>) {
    if got == {} then m !in t.items
    else
      && NewerIn(t, m, touched)
      && t.items[m].expected == |parts|
      && Ids(t.items[m].pieces) == got
      && PiecesOf(t.items[m].pieces, parts)
  }

  /** The pieces of the entry after one more fragment of the packet. */
  lemma OwnPieces(t: Table, d: Incoming, m: int, parts: seq<Piece>, got: set<int>, touched: set<int>)
    requires ValidTable(t) && IsFor(d, m) && FromPacket([d], m, parts) && 1 <= |parts| <= MAX_FRAGMENTS_PER_PACKET
    requires Collecting(t, m, parts, got, touched)
    ensures d.count == |parts| && 0 <= d.piece.id < |parts|
    ensures m in Opened(t, m, |parts|).items && ValidLru(Opened(t, m, |parts|))
    ensures
      var partial := Opened(t, m, |parts|).items[m];
      var pieces := Added(partial.pieces, d.piece);
      && partial.expected == |parts| && PiecesOf(pieces, parts)
      && Distinct(pieces) && Ids(pieces) == got + {d.piece.id}
  {
    assert d in [d];
    OpenedValid(t, m, |parts|);
    assert Ids([]) == {};
    AddedDistinct(Opened(t, m, |parts|).items[m].pieces, d.piece);
    hide ValidLru, Without;
  }

  lemma CollectOwn(
      t: Table, d: Incoming, m: int, parts: seq<Piece>, got: set<int>, touched: set<int>, decompress: Decompress)
    requires ValidTable(t) && IsFor(d, m) && FromPacket([d], m, parts) && 1 <= |parts| <= MAX_FRAGMENTS_PER_PACKET
    requires Collecting(t, m, parts, got, touched) && got <= Range(|parts|) && InOrder(parts)
    ensures
      var (t', delivery) := Handle(t, d, decompress);
      if got + {d.piece.id} == Range(|parts|) then delivery == Packet(parts, decompress) && m !in t'.items
      else delivery == Pending && Collecting(t', m, parts, got + {d.piece.id}, {})
  {
    OwnPieces(t, d, m, parts, got, touched);
    hide ValidTable, Opened, Added, PiecesOf, Distinct, Ids, FromPacket, ValidLru, NewerIn, Deliver, Range, Drop,
      Packet, InOrder;
    var t1 := Opened(t, m, |parts|);
    var pieces := Added(t1.items[m].pieces, d.piece);
    IdsSize(pieces);
    RangeSize(|parts|);
    Larger(Ids(pieces), Range(|parts|));
    if |pieces| >= |parts| {
      AllThere(pieces, |parts|);
      CompleteDelivers(pieces, parts, decompress);
      DropValid(t1, m);
    } else {
      FragmentIsNewest(t, m, |parts|, d.piece, decompress);
    }
  }

  /** The last datagram of a run gives this, and the fragments of `m` before it give nothing. */
  ghost predicate DeliversLast(r: seq<Delivery>, ds: seq<Incoming>, m: int, last: Delivery) {
    && |r| == |ds| > 0
    && r[|ds| - 1] == last
    && forall k :: 0 <= k < |ds| - 1 && IsFor(ds[k], m) ==> r[k] == Pending
  }

  lemma DeliversCons(first: Delivery, more: seq<Delivery>, ds: seq<Incoming>, m: int, last: Delivery)
    requires |more| + 1 == |ds|
    requires if |ds| == 1 then first == last
      else (IsFor(ds[0], m) ==> first == Pending) && DeliversLast(more, ds[1..], m, last)
    ensures DeliversLast([first] + more, ds, m, last)
  {
  }

  /** A packet's fragments, in any order, with duplicates before completion and with fewer than 1024 other
      message ids in between: every one but the last missing one gives nothing, and that one gives exactly the
      packet. */
  lemma {:induction false} Collects(
      t: Table, ds: seq<Incoming>, m: int, parts: seq<Piece>, got: set<int>, touched: set<int>, missing: int,
      decompress: Decompress)
    requires ValidTable(t) && FromPacket(ds, m, parts) && 1 <= |parts| <= MAX_FRAGMENTS_PER_PACKET
    requires Collecting(t, m, parts, got, touched) && got <= Range(|parts|) && InOrder(parts)
    requires ds != [] && got + Got(ds, m) == Range(|parts|)
    requires missing in Range(|parts|) && missing !in got && missing !in Got(ds[..|ds| - 1], m)
    requires |touched + Others(ds, m)| < CAPACITY
    ensures DeliversLast(Deliveries(t, ds, decompress), ds, m, Packet(parts, decompress))
    ensures m !in After(t, ds, decompress).items
    decreases |ds|
  {
    hide *;
    var d, rest := ds[0], ds[1..];
    var t' := Handle(t, d, decompress).0;
    HandleValid(t, d, decompress);
    RunCons(t, ds, m, parts, decompress);
    if IsFor(d, m) {
      OwnInRange(d, m, parts);
      CollectOwn(t, d, m, parts, got, touched, decompress);
      UnionAssoc(got, {d.piece.id}, Got(rest, m));
      if |ds| > 1 {
        Larger({} + Others(rest, m), touched + Others(ds, m));
        Collects(t', rest, m, parts, got + {d.piece.id}, {}, missing, decompress);
      }
      DeliversCons(Handle(t, d, decompress).1, Deliveries(t', rest, decompress), ds, m, Packet(parts, decompress));
    } else {
      var own := if d.Fragment? then {d.messageId} else {};
      NotOwn(d, m);
      UnionAssoc(touched, own, Others(rest, m));
      Larger(touched + own, touched + Others(ds, m));
      CollectOther(t, d, m, parts, got, touched, decompress);
      Collects(t', rest, m, parts, got, touched + own, missing, decompress);
      DeliversCons(Handle(t, d, decompress).1, Deliveries(t', rest, decompress), ds, m, Packet(parts, decompress));
    }
  }

  lemma UnionAssoc(a: set<int>, b: set<int>, c: set<int>)
    ensures a + (b + c) == (a + b) + c
  {
  }

  lemma EmptyUnion(a: set<int>)
    ensures {} + a == a
  {
  }

  lemma OwnInRange(d: Incoming, m: int, parts: seq<Piece>)
    requires FromPacket([d], m, parts) && IsFor(d, m)
    ensures d.Fragment? && d.piece.id in Range(|parts|)
  {
    assert d in [d];
  }

  lemma NotOwn(d: Incoming, m: int)
    requires !IsFor(d, m)
    ensures d.Fragment? ==> d.messageId != m
  {
  }

  lemma CollectOther(
      t: Table, d: Incoming, m: int, parts: seq<Piece>, got: set<int>, touched: set<int>, decompress: Decompress)
    requires ValidTable(t) && !IsFor(d, m) && Collecting(t, m, parts, got, touched)
    ensures var touched' := touched + (if d.Fragment? then {d.messageId} else {});
      |touched'| < CAPACITY ==> Collecting(Handle(t, d, decompress).0, m, parts, got, touched')
  {
    if got == {} {
      OtherEntry(t, d, m, decompress);
    } else {
      OtherKeeps(t, d, m, touched, decompress);
    }
  }

  /** A run as its first datagram and the rest. */
  lemma RunCons(t: Table, ds: seq<Incoming>, m: int, parts: seq<Piece>, decompress: Decompress)
    requires ds != []
    ensures
      var d, rest := ds[0], ds[1..];
      var (t', delivery) := Handle(t, d, decompress);
      && Deliveries(t, ds, decompress) == [delivery] + Deliveries(t', rest, decompress)
      && After(t, ds, decompress) == After(t', rest, decompress)
      && Got(ds, m) == (if IsFor(d, m) then {d.piece.id} else {}) + Got(rest, m)
      && Others(ds, m) == (if d.Fragment? && d.messageId != m then {d.messageId} else {}) + Others(rest, m)
      && (|ds| > 1 ==>
            Got(ds[..|ds| - 1], m) == (if IsFor(d, m) then {d.piece.id} else {}) + Got(rest[..|rest| - 1], m))
      && (FromPacket(ds, m, parts) ==> FromPacket([d], m, parts) && FromPacket(rest, m, parts))
      && (|ds| == 1 ==> Got(rest, m) == {} && After(t', rest, decompress) == t')
  {
    assert ds == [ds[0]] + ds[1..];
    if |ds| > 1 {
      var front := ds[..|ds| - 1];
      assert front[0] == ds[0] && front[1..] == ds[1..][..|ds| - 2];
    }
  }

  /** The fragments of a packet with these parts, as the receiver sees them. */
  function FragmentsOf(m: int, parts: seq<Piece>): (r: seq<Incoming>)
    ensures |r| == |parts|
    ensures forall i :: 0 <= i < |parts| ==> r[i] == Fragment(m, |parts|, parts[i])
  {
    seq(|parts|, i requires 0 <= i < |parts| => Fragment(m, |parts|, parts[i]))
  }

  /** Slices that are sent without compression. */
  function Uncompressed(slices: seq<Bytes>): (parts: seq<Piece>)
    ensures |parts| == |slices| && forall i :: 0 <= i < |slices| ==> parts[i] == Piece(i, false, slices[i])
    ensures InOrder(parts)
  {
    seq(|slices|, i requires 0 <= i < |slices| => Piece(i, false, slices[i]))
  }

  lemma UncompressedPacket(slices: seq<Bytes>, decompress: Decompress)
    ensures Packet(Uncompressed(slices), decompress) == Whole(Join(slices))
  {
    var parts := Uncompressed(slices);
    assert seq(|parts|, i requires 0 <= i < |parts| => ContentOf(parts[i], decompress).value) == slices;
  }

  /** What the network may do to the datagrams `sent`: nothing is lost, but they are reordered, duplicated and
      mixed with datagrams of fewer than 1024 other message ids; the one numbered `missing` arrives only at the
      very end. */
  ghost predicate Shuffled(ds: seq<Incoming>, m: int, sent: seq<Incoming>, missing: nat) {
    && ds != []
    && (forall d :: d in ds ==> d in sent || !IsFor(d, m))
    && (forall d :: d in sent ==> d in ds)
    && missing < |sent| && sent[missing] !in ds[..|ds| - 1]
    && |Others(ds, m)| < CAPACITY
  }

  lemma {:induction false} NoOthers(ds: seq<Incoming>, m: int)
    requires forall d :: d in ds ==> IsFor(d, m)
    ensures Others(ds, m) == {}
  {
    if ds != [] {
      assert ds[0] in ds;
      NoOthers(ds[1..], m);
    }
  }

  /** Delivering in order is one of the things the network may do. */
  lemma InOrderIsShuffled(m: int, parts: seq<Piece>)
    requires parts != [] && InOrder(parts)
    ensures Shuffled(FragmentsOf(m, parts), m, FragmentsOf(m, parts), |parts| - 1)
  {
    var sent := FragmentsOf(m, parts);
    forall d | d in sent ensures IsFor(d, m) {
    }
    NoOthers(sent, m);
    assert forall i :: 0 <= i < |parts| - 1 ==> sent[i].piece.id == i;
  }

  lemma {:induction false} GotIff(ds: seq<Incoming>, m: int, x: int)
    ensures x in Got(ds, m) <==> exists d :: d in ds && IsFor(d, m) && d.piece.id == x
  {
    if ds != [] {
      assert ds == [ds[0]] + ds[1..];
      GotIff(ds[1..], m, x);
    }
  }

  lemma ShuffledGot(ds: seq<Incoming>, m: int, parts: seq<Piece>, missing: nat)
    requires InOrder(parts) && Shuffled(ds, m, FragmentsOf(m, parts), missing)
    ensures FromPacket(ds, m, parts) && Got(ds, m) == Range(|parts|) && missing !in Got(ds[..|ds| - 1], m)
  {
    var sent := FragmentsOf(m, parts);
    forall x ensures x in Got(ds, m) <==> x in Range(|parts|) {
      GotIff(ds, m, x);
      if x in Range(|parts|) {
        assert sent[x] in sent;
      }
    }
    var front := ds[..|ds| - 1];
    GotIff(front, m, missing);
    assert forall d :: d in front ==> d in ds;
  }

  /** The same for a packet of which nothing has arrived yet, whether it was compressed or not. */
  lemma ShuffledCollects(t: Table, ds: seq<Incoming>, m: int, parts: seq<Piece>, missing: nat, decompress: Decompress)
    requires ValidTable(t) && m !in t.items && 1 <= |parts| <= MAX_FRAGMENTS_PER_PACKET && InOrder(parts)
    requires Shuffled(ds, m, FragmentsOf(m, parts), missing)
    ensures DeliversLast(Deliveries(t, ds, decompress), ds, m, Packet(parts, decompress))
    ensures m !in After(t, ds, decompress).items
  {
    ShuffledGot(ds, m, parts, missing);
    assert Collecting(t, m, parts, {}, {});
    assert missing in Range(|parts|) && ds != [] && |Others(ds, m)| < CAPACITY;
    hide *;
    EmptyUnion(Got(ds, m));
    EmptyUnion(Others(ds, m));
    Collects(t, ds, m, parts, {}, {}, missing, decompress);
  }
}
