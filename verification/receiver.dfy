/** The receiving half of SourceDatagramStream as an object. */
module Receiver {
  import opened Pieces
  import opened Pylru
  import opened Reassembly
  import opened ReassemblyRuns

  /** The pair of `fragment_count` and the list that the receiver appends to. */
  class PendingPacket {
    const expected: nat
    var pieces: seq<Piece>

    constructor (expected: nat)
      ensures this.expected == expected && pieces == []
    {
      this.expected, pieces := expected, [];
    }
  }

  class SourceDatagramStream {
    const fragments: LruCache<PendingPacket>
    const decompress: Decompress
    /** The receiver that never evicts, run beside this one. */
    ghost var unbounded: map<int, Partial>

    ghost predicate Valid()
      reads fragments, fragments.items.Values
    {
      ValidTable(View()) && Unshared()
    }

    /** Every list belongs to one entry. */
    ghost predicate Unshared()
      reads fragments
    {
      forall j, k :: j in fragments.items && k in fragments.items && j != k ==> fragments.items[j] != fragments.items[k]
    }

    ghost function View(): Table
      reads fragments, fragments.items.Values
    {
      Lru(fragments.order,
        map k | k in fragments.items :: Partial(fragments.items[k].expected, fragments.items[k].pieces))
    }

    constructor (decompress: Decompress)
      ensures Valid() && fresh(fragments)
      ensures View() == Lru([], map[]) && unbounded == map[] && this.decompress == decompress
    {
      this.decompress := decompress;
      fragments := new LruCache();
      unbounded := map[];
    }

    /** `t` shows what these entries hold. */
    static ghost predicate Shows(t: Table, entries: map<int, PendingPacket>)
      reads entries.Values
    {
      t.items.Keys == entries.Keys &&
      forall k :: k in entries ==> t.items[k] == Partial(entries[k].expected, entries[k].pieces)
    }

    lemma Inside(messageId: int)
      ensures fragments.Contains(messageId) <==> messageId in fragments.items
    {
    }

    lemma Same(items: map<int, Partial>)
      requires Shows(Lru([], items), fragments.items)
      ensures View().items == items
    {
      assert View().items.Keys == items.Keys;
      forall k | k in items ensures View().items[k] == items[k] {
        assert k in fragments.items;
      }
    }

    /** The table after a lookup. */
    lemma Found(t: Table, was: map<int, PendingPacket>, messageId: int, count: nat)
      requires Shows(t, was) && messageId in was && fragments.View() == Touch(Lru(t.order, was), messageId)
      ensures fragments.items == was && View() == Opened(t, messageId, count)
    {
      hide Without;
      assert fragments.items == was;
      Same(t.items);
    }

    /** The table after a new entry has been set. */
    lemma Made(t: Table, was: map<int, PendingPacket>, messageId: int, count: nat, entry: PendingPacket)
      requires Shows(t, was) && messageId !in was && entry !in was.Values && ValidLru(t)
      requires forall j, k :: j in was && k in was && j != k ==> was[j] != was[k]
      requires fragments.View() == Put(Lru(t.order, was), messageId, entry)
      requires entry.pieces == [] && entry.expected ==
        if count > MAX_FRAGMENTS_PER_PACKET then MAX_FRAGMENTS_PER_PACKET else count
      ensures View() == Opened(t, messageId, count) && Unshared()
      ensures messageId in fragments.items && fragments.items[messageId] == entry
      ensures forall k :: k in fragments.items && k != messageId ==> k in was && fragments.items[k] == was[k]
    {
      hide ValidLru, Without;
      var items := Opened(t, messageId, count).items;
      assert items.Keys == fragments.items.Keys;
      forall k | k in fragments.items
        ensures items[k] == Partial(fragments.items[k].expected, fragments.items[k].pieces)
      {
        assert k != messageId ==> k in was && fragments.items[k] == was[k] && items[k] == t.items[k];
      }
      Same(items);
    }

    lemma SameOrder()
      requires ValidLru(View())
      ensures ValidLru(fragments.View())
    {
    }

    /** The entry of a message id, which becomes the newest; a new one is made from the count of its first
        fragment. */
    method Open(messageId: int, count: nat) returns (entry: PendingPacket)
      requires Valid()
      modifies fragments
      ensures View() == Opened(old(View()), messageId, count) && ValidLru(View()) && Unshared()
      ensures messageId in fragments.items && fragments.items[messageId] == entry
      ensures entry in old(fragments.items.Values) || fresh(entry)
      ensures forall k :: k in fragments.items && k != messageId ==>
        k in old(fragments.items) && fragments.items[k] == old(fragments.items[k])
    {
      ghost var t, was := View(), fragments.items;
      assert ValidLru(t) && Unshared() && Shows(t, was);
      hide *;
      OpenedValid(t, messageId, count);
      SameOrder();
      if fragments.Contains(messageId) {
        assert messageId in was && was[messageId] in was.Values by { Inside(messageId); }
        entry := fragments.Get(messageId);
        Found(t, was, messageId, count);
      } else {
        assert messageId !in was by { Inside(messageId); }
        entry := new PendingPacket(if count > MAX_FRAGMENTS_PER_PACKET then MAX_FRAGMENTS_PER_PACKET else count);
        fragments.Set(messageId, entry);
        Made(t, was, messageId, count, entry);
      }
    }

    /** The entries but one are told apart from it and show the same. */
    lemma Others(t: Table, messageId: int, entry: PendingPacket)
      requires t == View() && Unshared() && messageId in fragments.items && fragments.items[messageId] == entry
      ensures t.order == fragments.order && t.items.Keys == fragments.items.Keys
      ensures t.items[messageId] == Partial(entry.expected, entry.pieces)
      ensures forall k :: k in fragments.items && k != messageId ==> fragments.items[k] != entry
      ensures forall k :: k in fragments.items ==>
        t.items[k] == Partial(fragments.items[k].expected, fragments.items[k].pieces)
    {
    }

    lemma Changed(t: Table, messageId: int)
      requires t.order == fragments.order && t.items.Keys == fragments.items.Keys && messageId in fragments.items
      requires forall k :: k in fragments.items && k != messageId ==>
        t.items[k] == Partial(fragments.items[k].expected, fragments.items[k].pieces)
      ensures var entry := fragments.items[messageId];
        View() == Lru(t.order, t.items[messageId := Partial(entry.expected, entry.pieces)])
    {
      var entry := fragments.items[messageId];
      Same(t.items[messageId := Partial(entry.expected, entry.pieces)]);
    }

    lemma Removed(t: Table, messageId: int)
      requires fragments.order == Without(t.order, messageId) && fragments.items.Keys == t.items.Keys - {messageId}
      requires forall k :: k in fragments.items ==>
        t.items[k] == Partial(fragments.items[k].expected, fragments.items[k].pieces)
      ensures View() == Drop(t, messageId)
    {
      hide Without;
      Same(t.items - {messageId});
    }

    /** The in-place half of handle_fragments: append unless the fragment is there, and when the packet is
        complete take the entry out, sort its list in place and join it. */
    method Add(messageId: int, entry: PendingPacket, piece: Piece) returns (r: Delivery)
      requires ValidLru(View()) && Unshared() && messageId in fragments.items && fragments.items[messageId] == entry
      modifies fragments, entry
      ensures Unshared() && fragments.items.Keys <= old(fragments.items.Keys)
      ensures forall k :: k in fragments.items ==> fragments.items[k] == old(fragments.items[k])
      ensures
        var partial := old(View()).items[messageId];
        var pieces := Added(partial.pieces, piece);
        if |pieces| < partial.expected then
          r == Pending && View() ==
            Lru(old(View()).order, old(View()).items[messageId := Partial(partial.expected, pieces)])
        else
          r == Deliver(pieces, decompress) && View() == Drop(old(View()), messageId)
    {
      ghost var t := View();
      SameOrder();
      Others(t, messageId, entry);
      hide View, Unshared, ValidLru, Without;
      if piece.id !in Ids(entry.pieces) {
        entry.pieces := entry.pieces + [piece];
      }
      Changed(t, messageId);
      if |entry.pieces| < entry.expected {
        return Pending;
      }
      fragments.Pop(messageId);
      entry.pieces := SortById(entry.pieces);
      Removed(t, messageId);
      match Contents(entry.pieces, decompress) {
        case Some(data) => r := Whole(data);
        case None => r := Corrupt;
      }
    }

    /** A fragment finds or makes its entry and is added to it. */
    method HandleFragment(messageId: int, count: nat, piece: Piece) returns (r: Delivery)
      requires Valid()
      modifies fragments, fragments.items.Values
      ensures Valid()
      ensures (View(), r) == HandlePart(old(View()), messageId, count, piece, decompress)
      ensures fresh(fragments.items.Values - old(fragments.items.Values))
    {
      HandlePartValid(View(), messageId, count, piece, decompress);
      hide ValidTable, Added, Deliver, Opened, View, Unshared, ValidLru;
      var entry := Open(messageId, count);
      r := Add(messageId, entry, piece);
      assert forall k :: k in fragments.items ==>
        fragments.items[k] in old(fragments.items.Values) || fresh(fragments.items[k]);
    }

    /** handle_fragments on a decoded datagram: it is the step of the table on values, and as long as fewer than
        1024 other ids are live it is also the step of the dictionary that never evicts. */
    method HandleIncoming(d: Incoming) returns (r: Delivery)
      requires Valid()
      modifies this`unbounded, fragments, fragments.items.Values
      ensures Valid()
      ensures (View(), r) == Handle(old(View()), d, decompress)
      ensures unbounded == HandleUnbounded(old(unbounded), d, decompress).0
      ensures old(View().items) == old(unbounded) &&
        (d.Fragment? && d.messageId !in old(unbounded) ==> |old(unbounded)| < CAPACITY)
        ==> View().items == unbounded && r == HandleUnbounded(old(unbounded), d, decompress).1
      ensures fresh(fragments.items.Values - old(fragments.items.Values))
    {
      ghost var t := View();
      hide ValidTable, HandlePart, HandleUnbounded, View, Unshared;
      if t.items == unbounded && (d.Fragment? && d.messageId !in unbounded ==> |unbounded| < CAPACITY) {
        SameStep(t, d, decompress);
      }
      match d {
        case Plain(packet) => r := Whole(packet);
        case Bad => r := Malformed;
        case Fragment(messageId, count, piece) => r := HandleFragment(messageId, count, piece);
      }
      unbounded := HandleUnbounded(unbounded, d, decompress).0;
    }
  }
}
