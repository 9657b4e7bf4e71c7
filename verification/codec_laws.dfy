/** Laws of the generic codec, for every schema. */
module CodecLaws {
  import opened Outcomes
  import opened Wire
  import opened Codec

  // ---------------------------------------------------------------- the schemas that can be inverted

  /** A schema whose arrays are lists of header-less elements with a fixed count or with a count that is
      the value of an earlier number field (one of `counts`), and whose field names are distinct
      (`seen` are the names before it). */
  predicate Closed(fields: seq<Field>, seen: set<string>, counts: set<string>) {
    |fields| > 0 ==>
      && fields[0].name !in seen
      && (fields[0].ArrayField? ==> ClosedArray(fields[0], counts))
      && Closed(fields[1..], seen + {fields[0].name}, counts + CountName(fields[0]))
  }

  predicate ClosedArray(f: Field, counts: set<string>)
    requires f.ArrayField?
  {
    && !f.packet
    && f.shape.AsList?
    && (f.count.Exactly? || (f.count.ValueOf? && f.count.name in counts))
    && Closed(f.element, {}, {})
  }

  /** The name under which a field can serve as a count. */
  function CountName(f: Field): set<string> {
    if f.IntField? && f.kind.Number? then {f.name} else {}
  }

  /** The value that is encoded for a scalar field: the given one or the default. */
  function Shown(f: Field, values: Record): Value
    requires !f.ArrayField?
    requires f.name in values || (!f.ChunkField? && f.presence.WithDefault?)
  {
    if f.name in values then values[f.name] else f.presence.value
  }

  /** Values that survive: nothing is skipped, texts have no NUL, identifiers are valid, and a list
      is as long as the field that counts it says. */
  predicate Plain(fields: seq<Field>, values: Record) {
    |fields| == 0 || (PlainField(fields[0], values) && Plain(fields[1..], values))
  }

  predicate PlainField(f: Field, values: Record)
    decreases f
  {
    if f.ArrayField? then
      && f.name in values
      && values[f.name].ListV?
      && (f.count.ValueOf? ==> f.count.name in values && values[f.count.name] == IntV(|values[f.name].items|))
      && forall i :: 0 <= i < |values[f.name].items| ==> Plain(f.element, values[f.name].items[i])
    else
      && (f.name in values || (!f.ChunkField? && f.presence.WithDefault?))
      && (f.TextField? && Shown(f, values).TextV? ==> 0 !in Shown(f, values).text)
      && (f.IntField? && Shown(f, values).IntV? ==> ValidId(f.kind, Shown(f, values).i))
  }

  /** What decoding gives back: the given values, with defaults filled in and identifiers wrapped. */
  function Normal(fields: seq<Field>, values: Record, acc: Record): Record
    requires Plain(fields, values)
    decreases fields, 0
  {
    if |fields| == 0 then acc else
    Normal(fields[1..], values, acc[fields[0].name := NormalField(fields[0], values)])
  }

  function NormalField(f: Field, values: Record): Value
    requires PlainField(f, values)
    decreases f, 0
  {
    if f.ArrayField? then ListV(NormalItems(f.element, values[f.name].items))
    else if f.IntField? && !f.kind.Number? && Shown(f, values).IntV? then IdV(f.kind, Shown(f, values).i)
    else Shown(f, values)
  }

  function NormalItems(element: seq<Field>, items: seq<Record>): (r: seq<Record>)
    requires forall i :: 0 <= i < |items| ==> Plain(element, items[i])
    ensures |r| == |items|
    decreases element, 1, |items|
  {
    if items == [] then [] else [Normal(element, items[0], map[])] + NormalItems(element, items[1..])
  }

  // ---------------------------------------------------------------- decode inverts encode

  ghost predicate Agrees(acc: Record, values: Record, counts: set<string>) {
    forall n :: n in counts ==> n in acc && (n in values ==> acc[n] == values[n])
  }

  lemma TerminatorOf(text: Bytes, rest: Bytes)
    requires 0 !in text
    ensures Terminator(text + [0] + rest) == |text|
  {
    var buf := text + [0] + rest;
    assert forall i :: 0 <= i < |text| ==> buf[i] == text[i] && buf[i] != 0;
    assert buf[|text|] == 0;
  }

  lemma {:induction false} RoundTripScalar(f: Field, values: Record, mins: Minimums, tail: Bytes, acc: Record)
    requires WellFormedField(f) && !f.ArrayField? && PlainField(f, values)
    requires EncodeField(f, values, mins).0.Ok?
    ensures DecodeField(f, EncodeField(f, values, mins).0.value + tail, acc) == Ok((NormalField(f, values), tail))
  {
    var b := EncodeField(f, values, mins).0.value;
    match f
    case IntField(name, presence, format, accepts, kind) =>
      UnpackInvertsPack(format, Shown(f, values).i);
      assert (b + tail)[..format.width] == b && (b + tail)[format.width..] == tail;
    case TextField(name, presence) =>
      var text := Shown(f, values).text;
      TerminatorOf(text, tail);
      assert (b + tail)[..|text|] == text && (b + tail)[|text| + 1..] == tail;
    case ChunkField(name, size, packable) =>
      assert (b + tail)[..size] == b && (b + tail)[size..] == tail;
  }

  /** A successful encoding of an `Exactly(n)` array has exactly n elements (none when n is negative). */
  lemma {:induction false} EncodedCount(f: Field, items: seq<Record>, i: nat, values: Record, mins: Minimums)
    requires f.ArrayField? && WellFormedField(f) && i <= |items| && f.count.Exactly?
    requires EncodeItems(f, items, i, values, mins).0.Ok?
    ensures |items| >= f.count.n && (i < |items| ==> |items| <= f.count.n)
    decreases |items| - i
  {
    if i < |items| {
      var mins1 := Called(f.count, f.closure, values, mins);
      var mins2 := EncodeMessage(f.packet, f.element, items[i], mins1).1;
      EncodedCount(f, items, i + 1, values, mins2);
    }
  }

  lemma {:induction false} RoundTripItems(
      f: Field, items: seq<Record>, i: nat, values: Record, mins: Minimums, tail: Bytes, limit: int)
    requires f.ArrayField? && WellFormedField(f) && i <= |items|
    requires !f.packet && Closed(f.element, {}, {})
    requires forall j :: 0 <= j < |items| ==> Plain(f.element, items[j])
    requires limit == |items| || (items == [] && limit < 0)
    requires EncodeItems(f, items, i, values, mins).0.Ok?
    ensures DecodeMany(f.element, EncodeItems(f, items, i, values, mins).0.value + tail, Bound(Some(limit), limit), i)
         == Ok((NormalItems(f.element, items[i..]), tail))
    decreases f.element, 1, |items| - i
  {
    hide WellFormed, Closed, Closures;
    var b := EncodeItems(f, items, i, values, mins).0.value;
    if i == |items| {
      assert b + tail == tail;
    } else {
      var mins1, mins2, first, rest := EncodeItemsStep(f, items, i, values, mins);
      assert b + tail == first + (rest + tail);
      RoundTripFields(f.element, items[i], mins1, rest + tail, map[], {}, {});
      RoundTripItems(f, items, i + 1, values, mins2, tail, limit);
      assert items[i..][0] == items[i] && items[i..][1..] == items[i + 1..];
    }
  }

  lemma {:induction false} RoundTripArray(
      f: Field, values: Record, mins: Minimums, tail: Bytes, acc: Record, counts: set<string>)
    requires f.ArrayField? && WellFormedField(f) && ClosedArray(f, counts) && PlainField(f, values)
    requires Agrees(acc, values, counts)
    requires EncodeField(f, values, mins).0.Ok?
    ensures DecodeField(f, EncodeField(f, values, mins).0.value + tail, acc) == Ok((NormalField(f, values), tail))
    decreases f, 0, 0
  {
    var items := values[f.name].items;
    var limit := if f.count.Exactly? then f.count.n else |items|;
    if f.count.Exactly? {
      EncodedCount(f, items, 0, values, mins);
    }
    if items == [] && limit == 0 {
    }
    RoundTripItems(f, items, 0, values, mins, tail, limit);
    assert items[0..] == items;
    assert BoundOf(f.count, acc) == Ok(Bound(Some(limit), limit));
  }

  lemma {:induction false} RoundTripFields(
      fields: seq<Field>, values: Record, mins: Minimums, tail: Bytes, acc: Record, seen: set<string>,
      counts: set<string>)
    requires WellFormed(fields) && Closed(fields, seen, counts) && Plain(fields, values)
    requires counts <= seen && Agrees(acc, values, counts)
    requires Encode(fields, values, mins).0.Ok?
    ensures Decode(fields, Encode(fields, values, mins).0.value + tail, acc) == Ok((Normal(fields, values, acc), tail))
    decreases fields, 0, 0
  {
    var b := Encode(fields, values, mins).0.value;
    if |fields| == 0 {
      assert b + tail == tail;
    } else {
      var f := fields[0];
      var (first, mins1) := EncodeField(f, values, mins);
      var (rest, mins2) := Encode(fields[1..], values, mins1);
      assert b + tail == first.value + (rest.value + tail);
      if f.ArrayField? {
        RoundTripArray(f, values, mins, rest.value + tail, acc, counts);
      } else {
        RoundTripScalar(f, values, mins, rest.value + tail, acc);
      }
      var acc1 := acc[f.name := NormalField(f, values)];
      RoundTripFields(fields[1..], values, mins1, tail, acc1, seen + {f.name}, counts + CountName(f));
    }
  }

  /** Decoding an encoded message, whatever follows it, gives the values back and leaves what follows. */
  lemma RoundTrip(fields: seq<Field>, values: Record, mins: Minimums, tail: Bytes)
    requires WellFormed(fields) && Closed(fields, {}, {}) && Plain(fields, values)
    requires Encode(fields, values, mins).0.Ok?
    ensures Decode(fields, Encode(fields, values, mins).0.value + tail, map[]) ==
      Ok((Normal(fields, values, map[]), tail))
  {
    RoundTripFields(fields, values, mins, tail, map[], {}, {});
  }

  function Names(fields: seq<Field>): set<string> {
    if |fields| == 0 then {} else {fields[0].name} + Names(fields[1..])
  }

  /** Nothing is left to a default and nothing is wrapped: every field has a value in `values`. */
  predicate Explicit(fields: seq<Field>, values: Record) {
    |fields| == 0 || (ExplicitField(fields[0], values) && Explicit(fields[1..], values))
  }

  predicate ExplicitField(f: Field, values: Record)
    decreases f
  {
    && f.name in values
    && (f.IntField? ==> f.kind.Number?)
    && (f.ArrayField? ==>
          values[f.name].ListV? &&
          forall i :: 0 <= i < |values[f.name].items| ==>
            Explicit(f.element, values[f.name].items[i]) && values[f.name].items[i].Keys == Names(f.element))
  }

  function Only(names: set<string>, values: Record): (r: Record)
    ensures values.Keys == names ==> r == values
  {
    map n | n in names && n in values :: values[n]
  }

  lemma OnlyWith(name: string, names: set<string>, values: Record, acc: Record)
    requires name in values
    ensures acc[name := values[name]] + Only(names, values) == acc + Only({name} + names, values)
  {
  }

  lemma {:induction false} NormalOfExplicit(fields: seq<Field>, values: Record, acc: Record)
    requires Plain(fields, values) && Explicit(fields, values)
    ensures Normal(fields, values, acc) == acc + Only(Names(fields), values)
    decreases fields, 0, 0
  {
    if |fields| > 0 {
      var f := fields[0];
      if f.ArrayField? {
        NormalOfExplicitItems(f.element, values[f.name].items);
      }
      assert NormalField(f, values) == values[f.name];
      NormalOfExplicit(fields[1..], values, acc[f.name := values[f.name]]);
      OnlyWith(f.name, Names(fields[1..]), values, acc);
    }
  }

  lemma {:induction false} NormalOfExplicitItems(element: seq<Field>, items: seq<Record>)
    requires forall i :: 0 <= i < |items| ==>
      Plain(element, items[i]) && Explicit(element, items[i]) && items[i].Keys == Names(element)
    ensures NormalItems(element, items) == items
    decreases element, 1, |items|
  {
    if items != [] {
      NormalOfExplicit(element, items[0], map[]);
      assert map[] + Only(Names(element), items[0]) == items[0];
      NormalOfExplicitItems(element, items[1..]);
      assert items == [items[0]] + items[1..];
    }
  }

  /** With every field given explicitly, decoding the encoding gives back exactly the given values. */
  lemma RoundTripExact(fields: seq<Field>, values: Record, mins: Minimums, tail: Bytes)
    requires WellFormed(fields) && Closed(fields, {}, {}) && Plain(fields, values)
    requires Explicit(fields, values) && values.Keys == Names(fields)
    requires Encode(fields, values, mins).0.Ok?
    ensures Decode(fields, Encode(fields, values, mins).0.value + tail, map[]) == Ok((values, tail))
  {
    RoundTrip(fields, values, mins, tail);
    NormalOfExplicit(fields, values, map[]);
    assert map[] + Only(Names(fields), values) == values;
  }

  // ---------------------------------------------------------------- decoding is self-delimiting

  /** Every array has an upper limit. */
  predicate Bounded(fields: seq<Field>) {
    |fields| > 0 ==>
      && (fields[0].ArrayField? ==>
            (fields[0].count.Exactly? || fields[0].count.ValueOf?) && Bounded(fields[0].element))
      && Bounded(fields[1..])
  }

  lemma CutMore(buf: Bytes, k: nat, more: Bytes)
    requires k <= |buf|
    ensures (buf + more)[..k] == buf[..k] && (buf + more)[k..] == buf[k..] + more
  {
  }

  lemma TextMore(buf: Bytes, more: Bytes)
    requires Terminator(buf) < |buf|
    ensures Terminator(buf + more) == Terminator(buf)
    ensures (buf + more)[..Terminator(buf)] == buf[..Terminator(buf)]
    ensures (buf + more)[Terminator(buf) + 1..] == buf[Terminator(buf) + 1..] + more
  {
    var n := Terminator(buf);
    CutMore(buf, n, more);
    CutMore(buf, n + 1, more);
    assert buf + more == buf[..n] + [0] + (buf[n + 1..] + more);
    TerminatorOf(buf[..n], buf[n + 1..] + more);
  }

  /** What follows a decodable message does not change what is decoded. */
  lemma {:induction false} SelfDelimiting(fields: seq<Field>, buf: Bytes, acc: Record, more: Bytes)
    requires WellFormed(fields) && Bounded(fields)
    requires Decode(fields, buf, acc).Ok?
    ensures Decode(fields, buf + more, acc) ==
      Ok((Decode(fields, buf, acc).value.0, Decode(fields, buf, acc).value.1 + more))
    decreases fields, 0, 0
  {
    if |fields| > 0 {
      SelfDelimitingField(fields[0], buf, acc, more);
      var (v, rest) := DecodeField(fields[0], buf, acc).value;
      SelfDelimiting(fields[1..], rest, acc[fields[0].name := v], more);
    }
  }

  lemma {:induction false} SelfDelimitingField(f: Field, buf: Bytes, acc: Record, more: Bytes)
    requires WellFormedField(f)
    requires f.ArrayField? ==> (f.count.Exactly? || f.count.ValueOf?) && Bounded(f.element)
    requires DecodeField(f, buf, acc).Ok?
    ensures DecodeField(f, buf + more, acc) ==
      Ok((DecodeField(f, buf, acc).value.0, DecodeField(f, buf, acc).value.1 + more))
    decreases f, 0, 0
  {
    match f
    case IntField(_, _, format, _, _) =>
      CutMore(buf, format.width, more);
    case TextField(_, _) =>
      TextMore(buf, more);
    case ChunkField(_, size, _) =>
      CutMore(buf, size, more);
    case ArrayField(_, element, _, count, _, _) =>
      SelfDelimitingMany(element, buf, BoundOf(count, acc).value, 0, more);
  }

  lemma {:induction false} SelfDelimitingMany(element: seq<Field>, buf: Bytes, bound: Bound, done: nat, more: Bytes)
    requires WellFormed(element) && Bounded(element)
    requires bound.limit == Some(bound.minimum)
    requires DecodeMany(element, buf, bound, done).Ok?
    ensures DecodeMany(element, buf + more, bound, done)
         == Ok((DecodeMany(element, buf, bound, done).value.0, DecodeMany(element, buf, bound, done).value.1 + more))
    decreases element, 1, bound.minimum - done
  {
    if done < bound.minimum {
      SelfDelimiting(element, buf, map[], more);
      SelfDelimitingMany(element, Decode(element, buf, map[]).value.1, bound, done + 1, more);
    }
  }

  // ---------------------------------------------------------------- encode inverts decode

  /** A schema whose names are distinct, also in the elements of its arrays. */
  predicate Unambiguous(fields: seq<Field>, seen: set<string>) {
    |fields| > 0 ==>
      && fields[0].name !in seen
      && (fields[0].ArrayField? ==> Unambiguous(fields[0].element, {}))
      && Unambiguous(fields[1..], seen + {fields[0].name})
  }

  /** How many elements of a message, also of elements, get a packet header when they are encoded. */
  function PacketElements(fields: seq<Field>, values: Record): nat
    decreases fields, 0, 0
  {
    if |fields| == 0 then 0 else PacketElementsOf(fields[0], values) + PacketElements(fields[1..], values)
  }

  function PacketElementsOf(f: Field, values: Record): nat
    decreases f, 0, 0
  {
    if f.ArrayField? && f.name in values && values[f.name].ListV? then PacketItems(f, values[f.name].items, 0) else 0
  }

  /** The same from element `i` of one array on. */
  function PacketItems(f: Field, items: seq<Record>, i: nat): nat
    requires f.ArrayField? && i <= |items|
    decreases f.element, 1, |items| - i
  {
    if i == |items| then 0
    else (if f.packet then 1 else 0) + PacketElements(f.element, items[i]) + PacketItems(f, items, i + 1)
  }

  lemma {:induction false} PairsKeep(key: string, value: string, items: seq<Record>, acc: map<Value, Value>)
    requires Pairs(key, value, items, acc).Ok?
    ensures acc.Keys <= Pairs(key, value, items, acc).value.Keys
    ensures items != [] ==> Pairs(key, value, items, acc).value != map[]
    decreases |items|
  {
    if items != [] {
      PairsKeep(key, value, items[1..], acc[items[0][key] := items[0][value]]);
      assert items[0][key] in Pairs(key, value, items, acc).value;
    }
  }

  /** Encoding sees the entries that were decoded, unless they went into a dictionary. */
  lemma CollectedElements(shape: Shape, items: seq<Record>)
    requires Collect(shape, items).Ok?
    ensures ElementsOf(Collect(shape, items).value) == if shape.AsList? || items == [] then Ok(items) else Broken
    ensures shape.AsDict? ==> Collect(shape, items).value.DictV?
  {
    if shape.AsDict? {
      PairsKeep(shape.key, shape.value, items, map[]);
    }
  }

  lemma Glue(first: Bytes, rest: Bytes, left: Bytes, next: Bytes, buf: Bytes)
    requires first + next == buf && rest + left == next
    ensures (first + rest) + left == buf
  {
    assert (first + rest) + left == first + (rest + left);
  }

  lemma {:induction false} DecodeKeeps(fields: seq<Field>, buf: Bytes, acc: Record, seen: set<string>)
    requires WellFormed(fields) && Unambiguous(fields, seen) && Decode(fields, buf, acc).Ok?
    ensures forall n :: n in acc && n in seen ==>
      n in Decode(fields, buf, acc).value.0 && Decode(fields, buf, acc).value.0[n] == acc[n]
    decreases |fields|
  {
    if |fields| > 0 {
      var (v, rest) := DecodeField(fields[0], buf, acc).value;
      DecodeKeeps(fields[1..], rest, acc[fields[0].name := v], seen + {fields[0].name});
    }
  }

  /** Encoding what was decoded reproduces the bytes that were consumed, and four bytes more for every element that
      gets a packet header; so it reproduces exactly them if and only if there is no such element. */
  lemma {:induction false} Canonical(
      fields: seq<Field>, buf: Bytes, acc: Record, seen: set<string>, values: Record, mins: Minimums)
    requires WellFormed(fields) && Unambiguous(fields, seen)
    requires Decode(fields, buf, acc).Ok? && values == Decode(fields, buf, acc).value.0
    requires Encode(fields, values, mins).0.Ok?
    ensures
      var encoded, rest := Encode(fields, values, mins).0.value, Decode(fields, buf, acc).value.1;
      && |encoded| + |rest| == |buf| + 4 * PacketElements(fields, values)
      && (encoded + rest == buf <==> PacketElements(fields, values) == 0)
    decreases fields, 0, 0
  {
    if |fields| > 0 {
      hide HasScalar, Closures, DecodeField, EncodeField, PacketElementsOf, Unambiguous, IsSuffix;
      var f := fields[0];
      UnambiguousParts(fields, seen);
      var (v, next) := DecodeField(f, buf, acc).value;
      DecodeKeeps(fields[1..], next, acc[f.name := v], seen + {f.name});
      var (first, mins1) := EncodeField(f, values, mins);
      CanonicalField(f, buf, acc, values, mins);
      Canonical(fields[1..], next, acc[f.name := v], seen + {f.name}, values, mins1);
      Framed(first.value, Encode(fields[1..], values, mins1).0.value, Decode(fields, buf, acc).value.1, next, buf,
        PacketElementsOf(f, values), PacketElements(fields[1..], values));
    }
  }

  lemma UnambiguousParts(fields: seq<Field>, seen: set<string>)
    requires |fields| > 0 && WellFormed(fields) && Unambiguous(fields, seen)
    ensures WellFormedField(fields[0]) && WellFormed(fields[1..])
    ensures fields[0].name !in seen && Unambiguous(fields[1..], seen + {fields[0].name})
    ensures fields[0].ArrayField? ==> Unambiguous(fields[0].element, {})
  {
    hide HasScalar, Closures;
  }

  /** Two encodings, with `m` and `n` headers in them, one behind the other. */
  lemma Framed(first: Bytes, rest: Bytes, left: Bytes, next: Bytes, buf: Bytes, m: nat, n: nat)
    requires |first| + |next| == |buf| + 4 * m && (first + next == buf <==> m == 0)
    requires |rest| + |left| == |next| + 4 * n && (rest + left == next <==> n == 0)
    ensures |first + rest| + |left| == |buf| + 4 * (m + n)
    ensures (first + rest) + left == buf <==> m + n == 0
  {
    if m + n == 0 {
      Glue(first, rest, left, next, buf);
    }
  }

  lemma {:induction false} CanonicalField(f: Field, buf: Bytes, acc: Record, values: Record, mins: Minimums)
    requires WellFormedField(f) && (f.ArrayField? ==> Unambiguous(f.element, {}))
    requires DecodeField(f, buf, acc).Ok? && f.name in values && values[f.name] == DecodeField(f, buf, acc).value.0
    requires EncodeField(f, values, mins).0.Ok?
    ensures
      var encoded, rest := EncodeField(f, values, mins).0.value, DecodeField(f, buf, acc).value.1;
      && |encoded| + |rest| == |buf| + 4 * PacketElementsOf(f, values)
      && (encoded + rest == buf <==> PacketElementsOf(f, values) == 0)
    decreases f, 0, 0
  {
    if f.ArrayField? {
      hide DecodeMany, EncodeItems, Collect, ElementsOf, PacketItems, WellFormed, HasScalar, Closures, Unambiguous;
      var bound := BoundOf(f.count, acc).value;
      var items := DecodeMany(f.element, buf, bound, 0).value.0;
      CollectedElements(f.shape, items);
      assert items[0..] == items;
      CanonicalMany(f, buf, bound, items, 0, values, mins);
      NoPacketItems(f, items);
    } else {
      CanonicalScalar(f, buf, acc, values, mins);
    }
  }

  lemma NoPacketItems(f: Field, items: seq<Record>)
    requires f.ArrayField?
    ensures items == [] ==> PacketItems(f, items, 0) == 0
  {
  }

  lemma CanonicalScalar(f: Field, buf: Bytes, acc: Record, values: Record, mins: Minimums)
    requires WellFormedField(f) && !f.ArrayField?
    requires DecodeField(f, buf, acc).Ok? && f.name in values && values[f.name] == DecodeField(f, buf, acc).value.0
    requires EncodeField(f, values, mins).0.Ok?
    ensures EncodeField(f, values, mins).0.value + DecodeField(f, buf, acc).value.1 == buf
  {
    match f
    case IntField(_, _, format, _, _) =>
      PackInvertsUnpack(format, buf[..format.width]);
    case TextField(_, _) =>
      assert buf == buf[..Terminator(buf)] + [0] + buf[Terminator(buf) + 1..];
    case ChunkField(_, size, _) =>
  }

  /** One element of a successful array encoding. */
  lemma EncodeItemsStep(f: Field, items: seq<Record>, i: nat, values: Record, mins: Minimums)
      returns (mins1: Minimums, mins2: Minimums, first: Bytes, rest: Bytes)
    requires f.ArrayField? && WellFormedField(f) && i < |items|
    requires EncodeItems(f, items, i, values, mins).0.Ok?
    ensures (Ok(first), mins2) == EncodeMessage(f.packet, f.element, items[i], mins1)
    ensures Ok(rest) == EncodeItems(f, items, i + 1, values, mins2).0
    ensures EncodeItems(f, items, i, values, mins).0.value == first + rest
  {
    mins1 := Called(f.count, f.closure, values, mins);
    var encoded := EncodeMessage(f.packet, f.element, items[i], mins1);
    first, mins2 := encoded.0.value, encoded.1;
    rest := EncodeItems(f, items, i + 1, values, mins2).0.value;
  }

  lemma Heads<T>(items: seq<T>, i: nat, first: T, rest: seq<T>)
    requires i < |items| && items[i..] == [first] + rest
    ensures items[i] == first && items[i + 1..] == rest
  {
    assert items[i] == items[i..][0];
    assert items[i + 1..] == items[i..][1..];
  }

  /** One element of an array decoding that gave some. */
  lemma DecodeManyStep(element: seq<Field>, buf: Bytes, bound: Bound, done: nat)
      returns (entry: Record, next: Bytes, entries: seq<Record>, left: Bytes)
    requires WellFormed(element) && (bound.limit.None? ==> HasScalar(element))
    requires DecodeMany(element, buf, bound, done).Ok? && DecodeMany(element, buf, bound, done).value.0 != []
    ensures Decode(element, buf, map[]) == Ok((entry, next))
    ensures DecodeMany(element, next, bound, done + 1) == Ok((entries, left))
    ensures DecodeMany(element, buf, bound, done) == Ok(([entry] + entries, left))
  {
    var head := Decode(element, buf, map[]).value;
    entry, next := head.0, head.1;
    var tail := DecodeMany(element, next, bound, done + 1).value;
    entries, left := tail.0, tail.1;
  }

  function PrependEntries(entries: seq<Record>, r: Outcome<(seq<Record>, Bytes)>): (r': Outcome<(seq<Record>, Bytes)>)
    ensures entries == [] ==> r' == r
    ensures r.Ok? && r.value.0 == [] ==> r' == Ok((entries, r.value.1))
  {
    assert entries + [] == entries && (r.Ok? ==> [] + r.value.0 == r.value.0);
    if r.Ok? then Ok((entries + r.value.0, r.value.1)) else r
  }

  /** One turn of the decoding loop. */
  lemma DecodeManyTurn(element: seq<Field>, entries: seq<Record>, buffer: Bytes, bound: Bound, count: nat)
    requires WellFormed(element) && (bound.limit.None? ==> HasScalar(element))
    ensures bound.limit.Some? && count >= bound.limit.value ==>
      PrependEntries(entries, DecodeMany(element, buffer, bound, count)) == Ok((entries, buffer))
    ensures bound.limit.None? || count < bound.limit.value ==>
      PrependEntries(entries, DecodeMany(element, buffer, bound, count)) ==
        match Decode(element, buffer, map[])
        case Ok((entry, rest)) => PrependEntries(entries + [entry], DecodeMany(element, rest, bound, count + 1))
        case Broken => if count < bound.minimum then Broken else Ok((entries, buffer))
        case Crash => Crash
  {
    if (bound.limit.None? || count < bound.limit.value) && Decode(element, buffer, map[]).Ok? {
      var (entry, rest) := Decode(element, buffer, map[]).value;
      var more := DecodeMany(element, rest, bound, count + 1);
      if more.Ok? {
        Reassociate(entries, [entry], more.value.0);
      }
    }
    hide Decode, WellFormed, HasScalar, IsSuffix;
  }

  /** The first turn. */
  lemma DecodeManyNext(element: seq<Field>, buf: Bytes, bound: Bound, done: nat)
    requires WellFormed(element) && (bound.limit.None? ==> HasScalar(element))
    ensures bound.limit.Some? && done >= bound.limit.value ==> DecodeMany(element, buf, bound, done) == Ok(([], buf))
    ensures bound.limit.None? || done < bound.limit.value ==>
      DecodeMany(element, buf, bound, done) ==
        match Decode(element, buf, map[])
        case Ok((entry, rest)) => PrependEntries([entry], DecodeMany(element, rest, bound, done + 1))
        case Broken => if done < bound.minimum then Broken else Ok(([], buf))
        case Crash => Crash
  {
    hide Decode, DecodeMany, PrependEntries, WellFormed, HasScalar;
    DecodeManyTurn(element, [], buf, bound, done);
    if Decode(element, buf, map[]).Ok? {
      var entry := Decode(element, buf, map[]).value.0;
      assert [] + [entry] == [entry];
    }
  }

  lemma {:induction false} CanonicalMany(
      f: Field, buf: Bytes, bound: Bound, items: seq<Record>, i: nat, values: Record, mins: Minimums)
    requires f.ArrayField? && WellFormedField(f) && WellFormed(f.element) && Unambiguous(f.element, {})
    requires bound.limit.None? ==> HasScalar(f.element)
    requires i <= |items| && DecodeMany(f.element, buf, bound, i).Ok? &&
      items[i..] == DecodeMany(f.element, buf, bound, i).value.0
    requires EncodeItems(f, items, i, values, mins).0.Ok?
    ensures
      var encoded, rest := EncodeItems(f, items, i, values, mins).0.value, DecodeMany(f.element, buf, bound, i).value.1;
      && |encoded| + |rest| == |buf| + 4 * PacketItems(f, items, i)
      && (encoded + rest == buf <==> PacketItems(f, items, i) == 0)
    decreases f.element, 1, |items| - i
  {
    if i < |items| {
      hide *;
      var entry, next, entries, left := DecodeManyStep(f.element, buf, bound, i);
      Heads(items, i, entry, entries);
      var mins1, mins2, first, rest := EncodeItemsStep(f, items, i, values, mins);
      CanonicalEntry(f, buf, entry, next, first, mins1);
      CanonicalMany(f, next, bound, items, i + 1, values, mins2);
      PacketItemsStep(f, items, i);
      Framed(first, rest, left, next, buf, (if f.packet then 1 else 0) + PacketElements(f.element, entry),
        PacketItems(f, items, i + 1));
    } else {
      NoneLeft(f, buf, bound, items, values, mins);
    }
  }

  lemma NoneLeft(f: Field, buf: Bytes, bound: Bound, items: seq<Record>, values: Record, mins: Minimums)
    requires f.ArrayField? && WellFormedField(f) && WellFormed(f.element)
    requires bound.limit.None? ==> HasScalar(f.element)
    requires DecodeMany(f.element, buf, bound, |items|).Ok? && DecodeMany(f.element, buf, bound, |items|).value.0 == []
    requires EncodeItems(f, items, |items|, values, mins).0.Ok?
    ensures EncodeItems(f, items, |items|, values, mins).0.value == []
    ensures DecodeMany(f.element, buf, bound, |items|).value.1 == buf
    ensures PacketItems(f, items, |items|) == 0
  {
    hide Decode, WellFormed, HasScalar, Closures, IsSuffix;
  }

  lemma PacketItemsStep(f: Field, items: seq<Record>, i: nat)
    requires f.ArrayField? && i < |items|
    ensures PacketItems(f, items, i) ==
      (if f.packet then 1 else 0) + PacketElements(f.element, items[i]) + PacketItems(f, items, i + 1)
  {
  }

  /** One element, with the header that it gets if it is a packet. */
  lemma CanonicalEntry(f: Field, buf: Bytes, entry: Record, next: Bytes, bytes: Bytes, mins: Minimums)
    requires f.ArrayField? && WellFormed(f.element) && Unambiguous(f.element, {})
    requires Decode(f.element, buf, map[]) == Ok((entry, next))
    requires EncodeMessage(f.packet, f.element, entry, mins).0 == Ok(bytes)
    ensures var n := (if f.packet then 1 else 0) + PacketElements(f.element, entry);
      |bytes| + |next| == |buf| + 4 * n && (bytes + next == buf <==> n == 0)
    decreases f.element, 0, 1
  {
    hide Decode, Encode, PacketElements, WellFormed, Unambiguous;
    Canonical(f.element, buf, map[], {}, entry, mins);
  }

  /** The predicates on schemas, one field at a time. */
  lemma SchemaCons(f: Field, rest: seq<Field>, values: Record, seen: set<string>, counts: set<string>)
    ensures Plain([f] + rest, values) <==> PlainField(f, values) && Plain(rest, values)
    ensures Explicit([f] + rest, values) <==> ExplicitField(f, values) && Explicit(rest, values)
    ensures Names([f] + rest) == {f.name} + Names(rest)
    ensures Closed([f] + rest, seen, counts) <==>
      f.name !in seen && (f.ArrayField? ==> ClosedArray(f, counts)) &&
        Closed(rest, seen + {f.name}, counts + CountName(f))
  {
    assert ([f] + rest)[1..] == rest;
  }
}
