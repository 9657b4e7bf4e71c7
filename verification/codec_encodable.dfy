/** Which values can be encoded, and which decoded messages can be encoded again. */
module CodecEncodable {
  import opened Outcomes
  import opened Wire
  import opened Codec
  import opened CodecLaws
  import opened CodecArrays
  import Loops = CodecLoops

  // ---------------------------------------------------------------- the minimums that an encoding leaves behind

  function Left(fields: seq<Field>, values: Record, mins: Minimums): Minimums
    decreases fields, 0, 0
  {
    if |fields| == 0 then mins else Left(fields[1..], values, LeftField(fields[0], values, mins))
  }

  function LeftField(f: Field, values: Record, mins: Minimums): Minimums
    decreases f, 0, 0
  {
    if f.ArrayField? && f.name in values && ElementsOf(values[f.name]).Ok? then
      LeftItems(f, ElementsOf(values[f.name]).value, 0, values, mins)
    else mins
  }

  function LeftItems(f: Field, items: seq<Record>, i: nat, values: Record, mins: Minimums): Minimums
    requires f.ArrayField? && i <= |items|
    decreases f.element, 2, |items| - i
  {
    if i == |items| then mins
    else LeftItems(f, items, i + 1, values, Left(f.element, items[i], Called(f.count, f.closure, values, mins)))
  }

  // ---------------------------------------------------------------- what can be encoded

  /** Required fields are present, numbers are in range and accepted, texts are texts, and every list has the length
      that its count says; an empty counted list depends on what is stored for its count. */
  predicate Encodable(fields: seq<Field>, values: Record, mins: Minimums)
    requires WellFormed(fields)
    decreases fields, 0, 0
  {
    |fields| > 0 ==>
      && EncodableField(fields[0], values, mins)
      && Encodable(fields[1..], values, LeftField(fields[0], values, mins))
  }

  predicate EncodableField(f: Field, values: Record, mins: Minimums)
    requires WellFormedField(f)
    decreases f, 0, 0
  {
    match f
    case IntField(name, presence, format, accepts, _) =>
      if name in values || presence.WithDefault? then
        var v := Shown(f, values);
        v.IntV? && accepts(v.i) && InRange(format, v.i)
      else presence.Skippable?
    case TextField(name, presence) =>
      if name in values || presence.WithDefault? then Shown(f, values).TextV? else presence.Skippable?
    case ChunkField(name, size, packable) =>
      packable && name in values && values[name].ChunkV? && |values[name].raw| == size
    case ArrayField(name, _, _, _, _, _) =>
      && name in values
      && ElementsOf(values[name]).Ok?
      && var items := ElementsOf(values[name]).value;
         CountAllows(f, |items|, 0, values, mins) && EncodableItems(f, items, 0, values, mins)
  }

  /** Whether the count of an array allows `n` elements, of which the first `i` are written. */
  predicate CountAllows(f: Field, n: nat, i: nat, values: Record, mins: Minimums)
    requires f.ArrayField?
  {
    match f.count
    case Exactly(k) => n == k || (k <= n && i == n)
    case All => true
    case AtLeast(k) => k <= n
    case ValueOf(name) =>
      if i == n then f.closure in mins && mins[f.closure].IntV? && mins[f.closure].i <= n
      else name in values && values[name] == IntV(n)
  }

  predicate EncodableItems(f: Field, items: seq<Record>, i: nat, values: Record, mins: Minimums)
    requires f.ArrayField? && WellFormedField(f) && i <= |items|
    decreases f.element, 2, |items| - i
  {
    i < |items| ==>
      var mins1 := Called(f.count, f.closure, values, mins);
      && Encodable(f.element, items[i], mins1)
      && EncodableItems(f, items, i + 1, values, Left(f.element, items[i], mins1))
  }

  /** For every schema and all values: `encode` succeeds exactly for the encodable ones. */
  lemma {:induction false} EncodesIff(fields: seq<Field>, values: Record, mins: Minimums)
    requires WellFormed(fields)
    ensures Encode(fields, values, mins).0.Ok? <==> Encodable(fields, values, mins)
    ensures Encode(fields, values, mins).0.Ok? ==> Encode(fields, values, mins).1 == Left(fields, values, mins)
    decreases fields, 0, 0
  {
    if |fields| > 0 {
      hide EncodeField, EncodableField, LeftField, Closures, HasScalar;
      EncodesFieldIff(fields[0], values, mins);
      EncodesIff(fields[1..], values, LeftField(fields[0], values, mins));
    }
  }

  lemma {:induction false} EncodesFieldIff(f: Field, values: Record, mins: Minimums)
    requires WellFormedField(f)
    ensures EncodeField(f, values, mins).0.Ok? <==> EncodableField(f, values, mins)
    ensures EncodeField(f, values, mins).0.Ok? ==> EncodeField(f, values, mins).1 == LeftField(f, values, mins)
    decreases f, 0, 0
  {
    if f.ArrayField? {
      hide EncodeItems, EncodableItems, LeftItems, CountAllows;
      if f.name in values && ElementsOf(values[f.name]).Ok? {
        EncodesItemsIff(f, ElementsOf(values[f.name]).value, 0, values, mins);
      }
    }
  }

  lemma {:induction false} EncodesItemsIff(f: Field, items: seq<Record>, i: nat, values: Record, mins: Minimums)
    requires f.ArrayField? && WellFormedField(f) && i <= |items|
    ensures EncodeItems(f, items, i, values, mins).0.Ok? <==>
      CountAllows(f, |items|, i, values, mins) && EncodableItems(f, items, i, values, mins)
    ensures EncodeItems(f, items, i, values, mins).0.Ok? ==>
      EncodeItems(f, items, i, values, mins).1 == LeftItems(f, items, i, values, mins)
    decreases f.element, 2, |items| - i
  {
    if i < |items| {
      var mins1 := Called(f.count, f.closure, values, mins);
      EncodesIff(f.element, items[i], mins1);
      EncodeFrame(f.element, items[i], mins1, f.closure);
      EncodesItemsIff(f, items, i + 1, values, Left(f.element, items[i], mins1));
      hide Encode, Encodable, Left, Closures, HasScalar;
    }
  }

  /** How a scalar field fails: a missing required one raises ValueError; a number that is none, not accepted or out
      of range is a BrokenMessageError; a text that is none raises AttributeError; a field without a format cannot be
      encoded, and for the others `struct.pack` refuses what does not fit. */
  lemma ScalarErrors(f: Field, values: Record, mins: Minimums)
    requires WellFormedField(f) && !f.ArrayField?
    ensures var r := EncodeField(f, values, mins).0;
      if f.ChunkField? then
        && (r.Crash? <==> f.name !in values || !f.packable)
        && (r.Broken? <==>
              f.name in values && f.packable && !(values[f.name].ChunkV? && |values[f.name].raw| == f.size))
      else if f.name !in values then
        && (f.presence.Required? ==> r == Crash) && (f.presence.Skippable? ==> r == Ok([]))
        && (f.presence.WithDefault? ==> r == EncodeField(f, values[f.name := f.presence.value], mins).0)
      else if f.IntField? then
        var v := values[f.name];
        !r.Crash? && (r.Broken? <==> !(v.IntV? && f.accepts(v.i) && InRange(f.format, v.i)))
      else !r.Broken? && (r.Crash? <==> !values[f.name].TextV?)
  {
  }

  /** How an array field fails before any element: when it is missing, or when its value cannot be iterated; the
      characters of a text and the keys of a dictionary are no elements, but an empty one is an empty list. */
  lemma ArrayErrors(f: Field, values: Record, mins: Minimums)
    requires WellFormedField(f) && f.ArrayField?
    ensures f.name !in values ==> EncodeField(f, values, mins) == (Crash, mins)
    ensures f.name in values ==>
      var v := values[f.name];
      && (v.IntV? || v.ChunkV? || v.IdV? ==> EncodeField(f, values, mins) == (Crash, mins))
      && ((v.TextV? && v.text != []) || (v.DictV? && v.pairs != map[]) ==>
            EncodeField(f, values, mins) == (Broken, mins))
      && (v == TextV([]) || v == DictV(map[]) ==>
            EncodeField(f, values, mins) == EncodeItems(f, [], 0, values, mins))
  {
    hide EncodeItems;
  }

  /** How the element loop fails: without a usable count it raises, one element too many and too few elements are
      BrokenMessageErrors, and an element that fails decides. */
  lemma ItemsErrors(f: Field, items: seq<Record>, i: nat, values: Record, mins: Minimums)
    requires f.ArrayField? && WellFormedField(f) && i < |items|
    ensures
      var mins1, r := Called(f.count, f.closure, values, mins), EncodeItems(f, items, i, values, mins).0;
      var first := EncodeMessage(f.packet, f.element, items[i], mins1).0;
      && (f.count.ValueOf? && !(f.count.name in values && values[f.count.name].IntV?) ==> r == Crash)
      && (f.count.ValueOf? && f.count.name in values && values[f.count.name].IntV? && values[f.count.name].i <= i ==>
            r == Broken)
      && (f.count.Exactly? && f.count.n <= i ==> r == Broken)
      && (f.count.All? || f.count.AtLeast? || (f.count.Exactly? && i < f.count.n) ==> (!first.Ok? ==> r == first))
      && (f.count.ValueOf? && f.count.name in values && values[f.count.name].IntV? && i < values[f.count.name].i ==>
            (!first.Ok? ==> r == first))
  {
  }

  /** A field that fails decides, if all before it are encoded. */
  lemma FirstFailure(fields: seq<Field>, values: Record, mins: Minimums)
    requires WellFormed(fields) && |fields| > 0
    ensures WellFormedField(fields[0]) && WellFormed(fields[1..])
    ensures var (first, mins1) := EncodeField(fields[0], values, mins);
      if !first.Ok? then Encode(fields, values, mins).0 == first
      else !Encode(fields[1..], values, mins1).0.Ok? ==>
        Encode(fields, values, mins).0 == Encode(fields[1..], values, mins1).0
  {
    hide EncodeField;
  }

  /** The round trip: exactly the encodable values are encoded, and those that survive come back with their defaults. */
  lemma EncodableRoundTrip(fields: seq<Field>, values: Record, mins: Minimums, tail: Bytes)
    requires WellFormed(fields) && Closed(fields, {}, {}) && Plain(fields, values)
    ensures
      var encoded := Encode(fields, values, mins).0;
      && (encoded.Ok? <==> Encodable(fields, values, mins))
      && (encoded.Ok? ==> Decode(fields, encoded.value + tail, map[]) == Ok((Normal(fields, values, map[]), tail)))
  {
    hide *;
    EncodesIff(fields, values, mins);
    if Encodable(fields, values, mins) {
      RoundTrip(fields, values, mins, tail);
    }
  }

  /** With every field given explicitly, they come back exactly. */
  lemma EncodableRoundTripExact(fields: seq<Field>, values: Record, mins: Minimums, tail: Bytes)
    requires WellFormed(fields) && Closed(fields, {}, {}) && Plain(fields, values)
    requires Explicit(fields, values) && values.Keys == Names(fields)
    ensures
      var encoded := Encode(fields, values, mins).0;
      && (encoded.Ok? <==> Encodable(fields, values, mins))
      && (encoded.Ok? ==> Decode(fields, encoded.value + tail, map[]) == Ok((values, tail)))
  {
    hide *;
    EncodesIff(fields, values, mins);
    if Encodable(fields, values, mins) {
      RoundTripExact(fields, values, mins, tail);
    }
  }

  // ---------------------------------------------------------------- encoding what was decoded

  /** Decoded values that `encode` never accepts: Platform and ServerType objects, addresses. */
  predicate OneWay(f: Field) {
    (f.IntField? && !f.kind.Number?) || (f.ChunkField? && !f.packable)
  }

  /** Neither the message nor an element that is present holds such a value, or a dictionary with entries. */
  predicate Reencodable(fields: seq<Field>, values: Record)
    decreases fields, 0
  {
    |fields| > 0 ==> ReencodableField(fields[0], values) && Reencodable(fields[1..], values)
  }

  predicate ReencodableField(f: Field, values: Record)
    decreases f, 0
  {
    && !OneWay(f)
    && (f.ArrayField? && f.name in values && values[f.name].DictV? ==> values[f.name] == DictV(map[]))
    && (f.ArrayField? && f.name in values && values[f.name].ListV? ==>
          forall i :: 0 <= i < |values[f.name].items| ==> Reencodable(f.element, values[f.name].items[i]))
  }

  /** Every empty counted list meets a stored minimum of at most zero when its turn comes: the one stored before the
      encoding, unless another element of the same array has replaced it. */
  predicate EmptiesAllowed(fields: seq<Field>, values: Record, mins: Minimums)
    decreases fields, 0, 0
  {
    |fields| > 0 ==>
      && EmptiesAllowedField(fields[0], values, mins)
      && EmptiesAllowed(fields[1..], values, LeftField(fields[0], values, mins))
  }

  predicate EmptiesAllowedField(f: Field, values: Record, mins: Minimums)
    decreases f, 0, 0
  {
    f.ArrayField? && f.name in values && ElementsOf(values[f.name]).Ok? ==>
      && EmptyAllowed(f, values, mins)
      && EmptiesAllowedItems(f, ElementsOf(values[f.name]).value, 0, values, mins)
  }

  /** The minimum that is stored for the count allows the list to be empty, if it is. */
  predicate EmptyAllowed(f: Field, values: Record, mins: Minimums) {
    f.ArrayField? && f.count.ValueOf? && f.name in values && ElementsOf(values[f.name]) == Ok([]) ==>
      f.closure in mins && mins[f.closure].IntV? && mins[f.closure].i <= 0
  }

  predicate EmptiesAllowedItems(f: Field, items: seq<Record>, i: nat, values: Record, mins: Minimums)
    requires f.ArrayField? && i <= |items|
    decreases f.element, 2, |items| - i
  {
    i < |items| ==>
      var mins1 := Called(f.count, f.closure, values, mins);
      && EmptiesAllowed(f.element, items[i], mins1)
      && EmptiesAllowedItems(f, items, i + 1, values, Left(f.element, items[i], mins1))
  }

  /** A decoded message as its first field and the rest. */
  lemma DecodedParts(fields: seq<Field>, buf: Bytes, acc: Record, seen: set<string>, values: Record)
    requires |fields| > 0 && WellFormed(fields) && WellFormed(fields[1..]) && WellFormedField(fields[0])
    requires Unambiguous(fields[1..], seen + {fields[0].name}) && fields[0].name !in seen
    requires Decode(fields, buf, acc).Ok? && values == Decode(fields, buf, acc).value.0 && acc.Keys <= seen
    ensures DecodeField(fields[0], buf, acc).Ok?
    ensures
      var f := fields[0];
      var (v, next) := DecodeField(f, buf, acc).value;
      && f.name in values && values[f.name] == v
      && (forall n :: n in acc ==> n in values && values[n] == acc[n])
      && Decode(fields[1..], next, acc[f.name := v]).Ok? &&
        values == Decode(fields[1..], next, acc[f.name := v]).value.0
      && acc[f.name := v].Keys <= seen + {f.name}
  {
    hide DecodeField, HasScalar, Closures, IsSuffix, WellFormed, Unambiguous, WellFormedField;
    var f := fields[0];
    var (v, next) := DecodeField(f, buf, acc).value;
    DecodeKeeps(fields[1..], next, acc[f.name := v], seen + {f.name});
  }

  lemma {:induction false} DecodedIff(
      fields: seq<Field>, buf: Bytes, acc: Record, seen: set<string>, values: Record, mins: Minimums)
    requires WellFormed(fields) && Unambiguous(fields, seen) && acc.Keys <= seen
    requires Decode(fields, buf, acc).Ok? && values == Decode(fields, buf, acc).value.0
    ensures Encodable(fields, values, mins) <==> Reencodable(fields, values) && EmptiesAllowed(fields, values, mins)
    decreases fields, 0, 0
  {
    hide WellFormed, Unambiguous, Decode, DecodeField, EncodableField, ReencodableField, EmptiesAllowedField, LeftField;
    if |fields| > 0 {
      UnambiguousParts(fields, seen);
      DecodedParts(fields, buf, acc, seen, values);
      var f := fields[0];
      var (v, next) := DecodeField(f, buf, acc).value;
      DecodedFieldIff(f, buf, acc, values, mins);
      DecodedIff(fields[1..], next, acc[f.name := v], seen + {f.name}, values, LeftField(f, values, mins));
    }
  }

  lemma {:induction false} DecodedFieldIff(f: Field, buf: Bytes, acc: Record, values: Record, mins: Minimums)
    requires WellFormedField(f) && (f.ArrayField? ==> Unambiguous(f.element, {}))
    requires DecodeField(f, buf, acc).Ok? && f.name in values && values[f.name] == DecodeField(f, buf, acc).value.0
    requires forall n :: n in acc ==> n in values && values[n] == acc[n]
    ensures EncodableField(f, values, mins) <==> ReencodableField(f, values) && EmptiesAllowedField(f, values, mins)
    decreases f, 0, 0
  {
    if f.ArrayField? {
      hide DecodeMany, EncodableItems, EmptiesAllowedItems, Reencodable, CountAllows, EmptyAllowed, Unambiguous,
        WellFormed, HasScalar, Closures, IsSuffix, Collect, ElementsOf;
      var bound := BoundOf(f.count, acc).value;
      var items := DecodeMany(f.element, buf, bound, 0).value.0;
      CollectedElements(f.shape, items);
      ReencodableArray(f, items, values);
      if f.shape.AsList? || items == [] {
        assert items[0..] == items;
        DecodedCount(f, buf, bound, items, acc, values, mins);
        DecodedItemsIff(f, buf, bound, items, 0, values, mins);
      }
    } else {
      DecodedScalar(f, buf, acc, values, mins);
    }
  }

  lemma ReencodableArray(f: Field, items: seq<Record>, values: Record)
    requires f.ArrayField? && f.name in values && Collect(f.shape, items) == Ok(values[f.name])
    requires ElementsOf(values[f.name]) == if f.shape.AsList? || items == [] then Ok(items) else Broken
    ensures ReencodableField(f, values) <==>
      (f.shape.AsList? || items == []) && forall i :: 0 <= i < |items| ==> Reencodable(f.element, items[i])
  {
    hide Pairs, Reencodable;
  }

  lemma DecodedScalar(f: Field, buf: Bytes, acc: Record, values: Record, mins: Minimums)
    requires WellFormedField(f) && !f.ArrayField?
    requires DecodeField(f, buf, acc).Ok? && f.name in values && values[f.name] == DecodeField(f, buf, acc).value.0
    ensures EncodableField(f, values, mins) <==> !OneWay(f)
  {
  }

  /** A decoded list has the length that its count says; only the empty ones depend on more. */
  lemma DecodedCount(
      f: Field, buf: Bytes, bound: Bound, items: seq<Record>, acc: Record, values: Record, mins: Minimums)
    requires f.ArrayField? && WellFormed(f.element) && (bound.limit.None? ==> HasScalar(f.element))
    requires BoundOf(f.count, acc) == Ok(bound) && DecodeMany(f.element, buf, bound, 0).Ok?
    requires items == DecodeMany(f.element, buf, bound, 0).value.0
    requires f.name in values && ElementsOf(values[f.name]) == Ok(items)
    requires forall n :: n in acc ==> n in values && values[n] == acc[n]
    ensures CountAllows(f, |items|, 0, values, mins) <==> EmptyAllowed(f, values, mins)
  {
    DecodedAtMost(f.element, buf, bound, 0);
    hide Decode, DecodeMany, WellFormed, HasScalar, Closures, IsSuffix, ElementsOf;
  }

  lemma {:induction false} DecodedItemsIff(
      f: Field, buf: Bytes, bound: Bound, items: seq<Record>, i: nat, values: Record, mins: Minimums)
    requires f.ArrayField? && WellFormedField(f) && WellFormed(f.element) && Unambiguous(f.element, {})
    requires bound.limit.None? ==> HasScalar(f.element)
    requires i <= |items| && DecodeMany(f.element, buf, bound, i).Ok? &&
      items[i..] == DecodeMany(f.element, buf, bound, i).value.0
    ensures EncodableItems(f, items, i, values, mins) <==>
      (forall k :: i <= k < |items| ==> Reencodable(f.element, items[k])) &&
        EmptiesAllowedItems(f, items, i, values, mins)
    decreases f.element, 2, |items| - i
  {
    if i < |items| {
      hide Decode, DecodeMany, Encodable, EmptiesAllowed, Reencodable, Left, Unambiguous, WellFormed, HasScalar,
        Closures;
      var entry, next, entries, left := DecodeManyStep(f.element, buf, bound, i);
      Heads(items, i, entry, entries);
      var mins1 := Called(f.count, f.closure, values, mins);
      DecodedIff(f.element, buf, map[], {}, entry, mins1);
      DecodedItemsIff(f, next, bound, items, i + 1, values, Left(f.element, entry, mins1));
    }
  }

  /** For every schema with distinct names: a decoded message can be encoded again exactly when nothing in it is of a
      kind that `encode` never accepts and the minimums that earlier calls have left behind allow its empty lists.  The
      encoding is then longer than what was consumed by a header for every element that is a packet, and if there is
      no such element it is what was consumed. */
  lemma DecodeThenEncode(fields: seq<Field>, buf: Bytes, mins: Minimums)
    requires WellFormed(fields) && Unambiguous(fields, {}) && Decode(fields, buf, map[]).Ok?
    ensures
      var (values, rest) := Decode(fields, buf, map[]).value;
      var encoded := Encode(fields, values, mins).0;
      && (encoded.Ok? <==> Reencodable(fields, values) && EmptiesAllowed(fields, values, mins))
      && (encoded.Ok? ==> |encoded.value| == |buf| - |rest| + 4 * PacketElements(fields, values))
      && (encoded.Ok? ==> (encoded == Ok(buf[..|buf| - |rest|]) <==> PacketElements(fields, values) == 0))
  {
    hide *;
    var (values, rest) := Decode(fields, buf, map[]).value;
    DecodedIff(fields, buf, map[], {}, values, mins);
    EncodesIff(fields, values, mins);
    if Encode(fields, values, mins).0.Ok? {
      Canonical(fields, buf, map[], {}, values, mins);
      Consumed(Encode(fields, values, mins).0.value, rest, buf);
    }
  }

  lemma Consumed(first: Bytes, rest: Bytes, buf: Bytes)
    ensures |rest| <= |buf| && first + rest == buf ==> first == buf[..|buf| - |rest|]
    ensures IsSuffix(rest, buf) && first == buf[..|buf| - |rest|] ==> first + rest == buf
  {
  }

  lemma {:induction false} OneWayAt(fields: seq<Field>, k: nat, values: Record)
    requires k < |fields| && OneWay(fields[k])
    ensures !Reencodable(fields, values)
    decreases k
  {
    if k > 0 {
      OneWayAt(fields[1..], k - 1, values);
    }
  }

  /** A message with a Platform, a ServerType or an address among its own fields is never encoded again once it was
      decoded. */
  lemma NeverEncodable(fields: seq<Field>, k: nat, buf: Bytes, mins: Minimums)
    requires WellFormed(fields) && Unambiguous(fields, {}) && Decode(fields, buf, map[]).Ok?
    requires k < |fields| && OneWay(fields[k])
    ensures
      var values := Decode(fields, buf, map[]).value.0;
      !Encodable(fields, values, mins) && !Encode(fields, values, mins).0.Ok?
  {
    hide *;
    var values := Decode(fields, buf, map[]).value.0;
    OneWayAt(fields, k, values);
    DecodedIff(fields, buf, map[], {}, values, mins);
    EncodesIff(fields, values, mins);
  }

  lemma OneWayField(f: Field, buf: Bytes, acc: Record, values: Record, mins: Minimums)
    requires WellFormedField(f) && !f.ArrayField?
    requires DecodeField(f, buf, acc).Ok? && f.name in values && values[f.name] == DecodeField(f, buf, acc).value.0
    ensures OneWay(f) ==> EncodeField(f, values, mins).0 == if f.ChunkField? then Crash else Broken
    ensures !OneWay(f) ==> EncodeField(f, values, mins).0.Ok?
  {
    DecodedScalar(f, buf, acc, values, mins);
    EncodesFieldIff(f, values, mins);
    hide EncodableField;
  }

  /** The first field of such a kind, if only scalars stand before it. */
  function FirstOneWay(fields: seq<Field>): Option<Field> {
    if |fields| == 0 || fields[0].ArrayField? then None
    else if OneWay(fields[0]) then Some(fields[0])
    else FirstOneWay(fields[1..])
  }

  /** How the encoding fails then: the object is no number for `struct.pack`, and an address field has no format to
      pack with. */
  lemma {:induction false} OneWayFails(
      fields: seq<Field>, buf: Bytes, acc: Record, seen: set<string>, values: Record, mins: Minimums)
    requires WellFormed(fields) && Unambiguous(fields, seen) && acc.Keys <= seen
    requires Decode(fields, buf, acc).Ok? && values == Decode(fields, buf, acc).value.0
    requires FirstOneWay(fields).Some?
    ensures Encode(fields, values, mins).0 == if FirstOneWay(fields).value.ChunkField? then Crash else Broken
    decreases |fields|
  {
    hide Decode, DecodeField, EncodeField, OneWay, WellFormed, Unambiguous, WellFormedField, HasScalar, Closures,
      IsSuffix;
    UnambiguousParts(fields, seen);
    DecodedParts(fields, buf, acc, seen, values);
    var f := fields[0];
    OneWayField(f, buf, acc, values, mins);
    if !OneWay(f) {
      var (v, next) := DecodeField(f, buf, acc).value;
      OneWayFails(fields[1..], next, acc[f.name := v], seen + {f.name}, values, EncodeField(f, values, mins).1);
    }
  }

  // ---------------------------------------------------------------- minimums of other counts

  /** What is left for a count that does not occur in a message is what was there. */
  lemma {:induction false} LeftFrame(fields: seq<Field>, values: Record, mins: Minimums, c: nat)
    requires c !in Closures(fields)
    ensures var mins' := Left(fields, values, mins); (c in mins' <==> c in mins) && (c in mins ==> mins'[c] == mins[c])
    decreases fields, 1, 0
  {
    if |fields| > 0 {
      LeftFieldFrame(fields[0], values, mins, c);
      LeftFrame(fields[1..], values, LeftField(fields[0], values, mins), c);
      hide LeftField;
    }
  }

  lemma {:induction false} LeftFieldFrame(f: Field, values: Record, mins: Minimums, c: nat)
    requires f.ArrayField? ==> c != f.closure && c !in Closures(f.element)
    ensures var mins' := LeftField(f, values, mins); (c in mins' <==> c in mins) && (c in mins ==> mins'[c] == mins[c])
    decreases f, 1, 0
  {
    if f.ArrayField? && f.name in values && ElementsOf(values[f.name]).Ok? {
      LeftItemsFrame(f, ElementsOf(values[f.name]).value, 0, values, mins, c);
    }
  }

  lemma {:induction false} LeftItemsFrame(
      f: Field, items: seq<Record>, i: nat, values: Record, mins: Minimums, c: nat)
    requires f.ArrayField? && i <= |items| && c != f.closure && c !in Closures(f.element)
    ensures var mins' := LeftItems(f, items, i, values, mins);
      (c in mins' <==> c in mins) && (c in mins ==> mins'[c] == mins[c])
    decreases f.element, 2, |items| - i
  {
    if i < |items| {
      var mins1 := Called(f.count, f.closure, values, mins);
      LeftFrame(f.element, items[i], mins1, c);
      LeftItemsFrame(f, items, i + 1, values, Left(f.element, items[i], mins1), c);
      hide Left;
    }
  }

  // ---------------------------------------------------------------- schemas whose elements hold no arrays

  /** The elements of arrays hold no arrays, and no two arrays share a count. */
  predicate Flat(fields: seq<Field>) {
    |fields| > 0 ==>
      && (fields[0].ArrayField? ==> Closures(fields[0].element) == {} && fields[0].closure !in Closures(fields[1..]))
      && Flat(fields[1..])
  }

  /** For every empty counted list a number of at most zero is stored. */
  predicate EmptiesStored(fields: seq<Field>, values: Record, mins: Minimums) {
    |fields| > 0 ==> EmptyAllowed(fields[0], values, mins) && EmptiesStored(fields[1..], values, mins)
  }

  lemma ArrayHasClosure(fields: seq<Field>)
    requires |fields| > 0 && fields[0].ArrayField?
    ensures Closures(fields) != {}
  {
    assert fields[0].closure in Closures(fields);
  }

  lemma {:induction false} NoArrays(fields: seq<Field>, values: Record, mins: Minimums)
    requires Closures(fields) == {}
    ensures EmptiesAllowed(fields, values, mins)
    decreases |fields|
  {
    if |fields| > 0 {
      if fields[0].ArrayField? {
        ArrayHasClosure(fields);
        assert false;
      }
      NoArrays(fields[1..], values, LeftField(fields[0], values, mins));
    }
  }

  lemma {:induction false} FlatItems(f: Field, items: seq<Record>, i: nat, values: Record, mins: Minimums)
    requires f.ArrayField? && i <= |items| && Closures(f.element) == {}
    ensures EmptiesAllowedItems(f, items, i, values, mins)
    decreases |items| - i
  {
    if i < |items| {
      var mins1 := Called(f.count, f.closure, values, mins);
      NoArrays(f.element, items[i], mins1);
      FlatItems(f, items, i + 1, values, Left(f.element, items[i], mins1));
      hide EmptiesAllowed, Left;
    }
  }

  lemma {:induction false} StoredFrame(fields: seq<Field>, values: Record, m: Minimums, m': Minimums)
    requires forall c :: c in Closures(fields) ==> (c in m <==> c in m') && (c in m ==> m'[c] == m[c])
    ensures EmptiesStored(fields, values, m) <==> EmptiesStored(fields, values, m')
    decreases |fields|
  {
    if |fields| > 0 {
      StoredFrame(fields[1..], values, m, m');
    }
  }

  /** In a flat schema all empty lists are judged by what is stored before the encoding. */
  lemma {:induction false} FlatIff(fields: seq<Field>, values: Record, mins: Minimums)
    requires Flat(fields)
    ensures EmptiesAllowed(fields, values, mins) <==> EmptiesStored(fields, values, mins)
    decreases |fields|
  {
    if |fields| > 0 {
      var f := fields[0];
      var mins' := LeftField(f, values, mins);
      FlatField(f, values, mins);
      forall c | c in Closures(fields[1..]) ensures (c in mins' <==> c in mins) && (c in mins ==> mins'[c] == mins[c]) {
        LeftFieldFrame(f, values, mins, c);
      }
      StoredFrame(fields[1..], values, mins, mins');
      FlatIff(fields[1..], values, mins');
      hide EmptiesAllowedField, EmptyAllowed, LeftField;
    }
  }

  lemma FlatField(f: Field, values: Record, mins: Minimums)
    requires f.ArrayField? ==> Closures(f.element) == {}
    ensures EmptiesAllowedField(f, values, mins) <==> EmptyAllowed(f, values, mins)
  {
    if f.ArrayField? && f.name in values && ElementsOf(values[f.name]).Ok? {
      FlatItems(f, ElementsOf(values[f.name]).value, 0, values, mins);
    }
  }

  // ---------------------------------------------------------------- arrays in arrays

  lemma {:induction false} StoredLast(f: Field, items: seq<Record>, i: nat, values: Record, mins: Minimums)
    requires f.ArrayField? && i <= |items| && f.closure !in Closures(f.element)
    requires f.count.ValueOf? && f.count.name in values
    requires i == |items| ==> f.closure in mins && mins[f.closure] == values[f.count.name]
    ensures var mins' := LeftItems(f, items, i, values, mins);
      f.closure in mins' && mins'[f.closure] == values[f.count.name]
    decreases |items| - i
  {
    if i < |items| {
      var mins1 := Called(f.count, f.closure, values, mins);
      LeftFrame(f.element, items[i], mins1, f.closure);
      StoredLast(f, items, i + 1, values, Left(f.element, items[i], mins1));
      hide Left;
    }
  }

  /** Field `b` is a counted array that shares its count with no other. */
  predicate OwnCount(fields: seq<Field>, b: nat) {
    && b < |fields| && fields[b].ArrayField? && fields[b].count.ValueOf?
    && fields[b].closure !in Closures(fields[..b]) + Closures(fields[b].element) + Closures(fields[b + 1..])
  }

  lemma OwnCountRest(fields: seq<Field>, b: nat)
    requires OwnCount(fields, b) && b > 0
    ensures fields[1..][b - 1] == fields[b] && OwnCount(fields[1..], b - 1)
    ensures fields[0].ArrayField? ==>
      fields[b].closure != fields[0].closure && fields[b].closure !in Closures(fields[0].element)
  {
    assert fields[..b][0] == fields[0] && fields[..b][1..] == fields[1..][..b - 1];
    DropTwice(fields, 1, b);
  }

  /** Encoding an array that is not empty leaves its count behind. */
  lemma {:induction false} CountLeft(fields: seq<Field>, b: nat, values: Record, mins: Minimums)
    requires OwnCount(fields, b) && fields[b].count.name in values
    requires fields[b].name in values && values[fields[b].name].ListV? && values[fields[b].name] != ListV([])
    ensures var mins' := Left(fields, values, mins);
      fields[b].closure in mins' && mins'[fields[b].closure] == values[fields[b].count.name]
    decreases b
  {
    hide LeftField, Closures;
    if b > 0 {
      OwnCountRest(fields, b);
      hide OwnCount;
      CountLeft(fields[1..], b - 1, values, LeftField(fields[0], values, mins));
    } else {
      FirstCountLeft(fields[0], values, mins);
      LeftFrame(fields[1..], values, LeftField(fields[0], values, mins), fields[0].closure);
    }
  }

  lemma FirstCountLeft(f: Field, values: Record, mins: Minimums)
    requires f.ArrayField? && f.closure !in Closures(f.element) && f.count.ValueOf? && f.count.name in values
    requires f.name in values && values[f.name].ListV? && values[f.name] != ListV([])
    ensures var mins' := LeftField(f, values, mins); f.closure in mins' && mins'[f.closure] == values[f.count.name]
  {
    StoredLast(f, values[f.name].items, 0, values, mins);
    hide LeftItems;
  }

  /** An empty array does not go with a positive number that is left for its count. */
  lemma {:induction false} EmptyRefused(fields: seq<Field>, b: nat, values: Record, mins: Minimums)
    requires OwnCount(fields, b) && fields[b].name in values && values[fields[b].name] == ListV([])
    requires
      fields[b].closure in mins && mins[fields[b].closure].IntV? && mins[fields[b].closure].i > 0
    ensures !EmptiesAllowed(fields, values, mins)
    decreases b
  {
    hide LeftField, Closures;
    if b > 0 {
      OwnCountRest(fields, b);
      hide OwnCount, EmptiesAllowedField;
      LeftFieldFrame(fields[0], values, mins, fields[b].closure);
      EmptyRefused(fields[1..], b - 1, values, LeftField(fields[0], values, mins));
    } else {
      assert !EmptyAllowed(fields[0], values, mins);
      hide EmptyAllowed, EmptiesAllowedItems;
    }
  }

  /** Element `i` of an array has a list that is not empty, and the element after it has none. */
  predicate EmptyFollows(g: Field, items: seq<Record>, i: nat)
    requires g.ArrayField? && g.count.ValueOf?
  {
    && i + 1 < |items|
    && g.name in items[i] && items[i][g.name].ListV? && items[i][g.name] != ListV([])
    && g.count.name in items[i] && items[i][g.count.name].IntV? && items[i][g.count.name].i > 0
    && g.name in items[i + 1] && items[i + 1][g.name] == ListV([])
  }

  /** Right after decoding, too: in an array of any elements that hold a counted list, an element with an empty list
      cannot follow one whose list is not empty, since all elements share one count, which still holds the number of
      the element before. */
  lemma {:induction false} EmptyAfterNonEmpty(
      f: Field, b: nat, items: seq<Record>, start: nat, i: nat, values: Record, mins: Minimums)
    requires f.ArrayField? && OwnCount(f.element, b) && f.element[b].closure != f.closure
    requires start <= i && EmptyFollows(f.element[b], items, i)
    ensures !EmptiesAllowedItems(f, items, start, values, mins)
    decreases i - start
  {
    hide OwnCount, EmptiesAllowed, Left;
    var mins1 := Called(f.count, f.closure, values, mins);
    var mins2 := Left(f.element, items[start], mins1);
    if start < i {
      EmptyAfterNonEmpty(f, b, items, start + 1, i, values, mins2);
    } else {
      CountLeft(f.element, b, items[i], mins1);
      EmptyRefused(f.element, b, items[i + 1], Called(f.count, f.closure, values, mins2));
      assert !EmptiesAllowedItems(f, items, i + 1, values, mins2);
    }
  }

  /** So a message with such an array is never encoded again once it was decoded. */
  lemma NestedNeverEncodes(fields: seq<Field>, a: nat, b: nat, i: nat, buf: Bytes, mins: Minimums)
    requires WellFormed(fields) && Unambiguous(fields, {}) && Decode(fields, buf, map[]).Ok?
    requires a < |fields| && fields[a].ArrayField? && OwnCount(fields[a].element, b)
    requires fields[a].element[b].closure != fields[a].closure
    requires
      var values := Decode(fields, buf, map[]).value.0;
      fields[a].name in values && values[fields[a].name].ListV? &&
        EmptyFollows(fields[a].element[b], values[fields[a].name].items, i)
    ensures !Encode(fields, Decode(fields, buf, map[]).value.0, mins).0.Ok?
  {
    hide *;
    NestedRefused(fields, a, b, i, Decode(fields, buf, map[]).value.0, mins);
    DecodeThenEncode(fields, buf, mins);
  }

  lemma {:induction false} NestedRefused(fields: seq<Field>, a: nat, b: nat, i: nat, values: Record, mins: Minimums)
    requires a < |fields| && fields[a].ArrayField? && OwnCount(fields[a].element, b)
    requires fields[a].element[b].closure != fields[a].closure
    requires fields[a].name in values && values[fields[a].name].ListV? &&
      EmptyFollows(fields[a].element[b], values[fields[a].name].items, i)
    ensures !EmptiesAllowed(fields, values, mins)
    decreases a
  {
    hide OwnCount, EmptyFollows, EmptiesAllowedItems, LeftField, EmptyAllowed;
    if a > 0 {
      NestedRefused(fields[1..], a - 1, b, i, values, LeftField(fields[0], values, mins));
    } else {
      EmptyAfterNonEmpty(fields[0], b, values[fields[0].name].items, 0, i, values, mins);
    }
  }

  // ---------------------------------------------------------------- right after decoding

  lemma {:induction false} NamesApart(fields: seq<Field>, seen: set<string>, i: nat, j: nat)
    requires Unambiguous(fields, seen) && i < j < |fields|
    ensures fields[i].name != fields[j].name && fields[j].name !in seen
    decreases |fields|
  {
    if i > 0 {
      NamesApart(fields[1..], seen + {fields[0].name}, i - 1, j - 1);
    } else if j > 1 {
      NamesApart(fields[1..], seen + {fields[0].name}, 0, j - 1);
    }
  }

  lemma {:induction false} ClosuresApart(fields: seq<Field>, i: nat, j: nat)
    requires Flat(fields) && i < j < |fields| && fields[i].ArrayField? && fields[j].ArrayField?
    ensures fields[i].closure != fields[j].closure
    ensures Closures(fields[i].element) == {} && Closures(fields[j].element) == {}
    decreases |fields|
  {
    Loops.ClosuresAt(fields[1..], j - 1);
    if i > 0 {
      ClosuresApart(fields[1..], i - 1, j - 1);
    } else {
      FlatAt(fields, j);
    }
  }

  lemma {:induction false} FlatAt(fields: seq<Field>, j: nat)
    requires Flat(fields) && j < |fields| && fields[j].ArrayField?
    ensures Closures(fields[j].element) == {}
    decreases |fields|
  {
    if j > 0 {
      FlatAt(fields[1..], j - 1);
    }
  }

  lemma FlatIsDistinct(fields: seq<Field>)
    requires Flat(fields) && Unambiguous(fields, {})
    ensures Loops.Distinct(fields)
  {
    forall i, j | 0 <= i < j < |fields| ensures fields[i].name != fields[j].name {
      NamesApart(fields, {}, i, j);
    }
    forall i, j | 0 <= i < |fields| && 0 <= j < |fields| && i != j && fields[i].ArrayField?
      ensures fields[i].closure !in Loops.OwnClosures(fields[j])
    {
      if fields[j].ArrayField? {
        ClosuresApart(fields, if i < j then i else j, if i < j then j else i);
      }
    }
  }

  /** An empty list was decoded only for a count of at most zero. */
  lemma EmptyMeansNone(f: Field, buf: Bytes, acc: Record, values: Record, mins: Minimums)
    requires WellFormedField(f)
    requires DecodeField(f, buf, acc).Ok? && f.name in values && values[f.name] == DecodeField(f, buf, acc).value.0
    requires forall n :: n in acc ==> n in values && values[n] == acc[n]
    requires Loops.CountStored(f, values, mins)
    ensures EmptyAllowed(f, values, mins)
  {
    if f.ArrayField? && f.count.ValueOf? {
      hide Decode, DecodeMany, WellFormed, HasScalar, Closures, IsSuffix, Collect, ElementsOf;
      CollectedElements(f.shape, DecodeMany(f.element, buf, BoundOf(f.count, acc).value, 0).value.0);
    }
  }

  lemma {:induction false} DecodedStored(
      fields: seq<Field>, buf: Bytes, acc: Record, seen: set<string>, values: Record, mins: Minimums)
    requires WellFormed(fields) && Unambiguous(fields, seen) && acc.Keys <= seen
    requires Decode(fields, buf, acc).Ok? && values == Decode(fields, buf, acc).value.0
    requires forall k :: 0 <= k < |fields| ==> Loops.CountStored(fields[k], values, mins)
    ensures EmptiesStored(fields, values, mins)
    decreases |fields|
  {
    if |fields| > 0 {
      UnambiguousParts(fields, seen);
      hide WellFormed, Unambiguous, Decode, DecodeField, EmptyAllowed, WellFormedField, Loops.CountStored;
      DecodedParts(fields, buf, acc, seen, values);
      var f := fields[0];
      var (v, next) := DecodeField(f, buf, acc).value;
      EmptyMeansNone(f, buf, acc, values, mins);
      DecodedStored(fields[1..], next, acc[f.name := v], seen + {f.name}, values, mins);
    }
  }

  lemma AllStored(fields: seq<Field>, values: Record, mins: Minimums)
    requires Loops.CountsStored(fields, |fields|, values, mins) && Loops.Distinct(fields)
    ensures forall k :: 0 <= k < |fields| ==> Loops.CountStored(fields[k], values, mins)
  {
  }

  /** Decoding a message and encoding it again right away, with the minimums that the decoding has left `between`: for a
      flat schema this succeeds exactly when nothing in the message is of a kind that `encode` never accepts, and for
      any other exactly when those minimums also allow the empty lists.  It gives back exactly the bytes that were
      consumed if no element is a packet. */
  method DecodeAndEncode(fields: seq<Field>, packet: Bytes, closures: Loops.CountClosures)
      returns (decoded: Outcome<(Record, Bytes)>, encoded: Outcome<Bytes>, ghost between: Minimums)
    requires WellFormed(fields) && Unambiguous(fields, {})
    modifies closures
    ensures decoded == Decode(fields, packet, map[])
    ensures decoded.Ok? ==> Loops.CountsStored(fields, |fields|, decoded.value.0, between)
    ensures decoded.Ok? ==>
      (encoded.Ok? <==> Reencodable(fields, decoded.value.0) && EmptiesAllowed(fields, decoded.value.0, between))
    ensures decoded.Ok? && Flat(fields) ==> (encoded.Ok? <==> Reencodable(fields, decoded.value.0))
    ensures decoded.Ok? && encoded.Ok? ==>
      var (values, rest) := decoded.value;
      && |encoded.value| == |packet| - |rest| + 4 * PacketElements(fields, values)
      && (encoded == Ok(packet[..|packet| - |rest|]) <==> PacketElements(fields, values) == 0)
  {
    hide *;
    decoded := Loops.DecodeMessage(fields, packet, closures);
    between := closures.minimum;
    if !decoded.Ok? {
      return decoded, if decoded.Broken? then Broken else Crash, between;
    }
    DecodeThenEncode(fields, packet, between);
    if Flat(fields) {
      FlatIsDistinct(fields);
      AllStored(fields, decoded.value.0, between);
      DecodedStored(fields, packet, map[], {}, decoded.value.0, between);
      FlatIff(fields, decoded.value.0, between);
    }
    encoded := Loops.EncodeFields(fields, decoded.value.0, closures);
  }
}
