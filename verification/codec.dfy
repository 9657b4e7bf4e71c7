/** The schema language of the messages: a message class is a sequence of fields, and one generic
    encoder and one generic decoder work for every sequence. */
module Codec {
  import opened Outcomes
  import opened Wire

  /** What a decoded number is wrapped in: nothing, util.Platform or util.ServerType. */
  datatype Kind = Number | Platform | ServerType

  /** `ChunkV` is an opaque run of bytes (an IEEE float, a dotted IPv4 address). */
  datatype Value =
    | IntV(i: int)
    | TextV(text: Bytes)
    | ChunkV(raw: Bytes)
    | IdV(kind: Kind, id: int)
    | ListV(items: seq<Record>)
    | DictV(pairs: map<Value, Value>)

  /** The `values` dictionary of a message. */
  type Record = map<string, Value>

  /** `optional` and `default_value` of a field. */
  datatype Presence = Required | Skippable | WithDefault(value: Value)

  datatype Count = Exactly(n: int) | ValueOf(name: string) | All | AtLeast(n: int)

  /** MessageArrayField gives a list, MessageDictField a dictionary. */
  datatype Shape = AsList | AsDict(key: string, value: string)

  /** `packet` says that the element class of an array is a Packet, whose `encode` adds a header.
      `closure` numbers the closure that `value_of`, `all` or `at_least` made for the array. */
  datatype Field =
    | IntField(name: string, presence: Presence, format: IntFormat, accepts: int -> bool, kind: Kind)
    | TextField(name: string, presence: Presence)
    | ChunkField(name: string, size: nat, packable: bool)
    | ArrayField(name: string, element: seq<Field>, packet: bool, count: Count, closure: nat, shape: Shape)

  /** The valid identifiers of util.Platform and util.ServerType. */
  predicate ValidId(kind: Kind, id: int) {
    match kind
    case Number => true
    case Platform => id in {108, 109, 111, 119}
    case ServerType => id in {100, 108, 112}
  }

  predicate HasScalar(fields: seq<Field>) {
    exists i :: 0 <= i < |fields| && !fields[i].ArrayField?
  }

  function Closures(fields: seq<Field>): set<nat> {
    if |fields| == 0 then {} else
    (if fields[0].ArrayField? then {fields[0].closure} + Closures(fields[0].element) else {}) + Closures(fields[1..])
  }

  /** Every scalar has a size, an array's closure is its own, and an array without an upper limit has an
      element that consumes something (otherwise the decoding loop of the source never ends). */
  predicate WellFormed(fields: seq<Field>) {
    |fields| == 0 || (WellFormedField(fields[0]) && WellFormed(fields[1..]))
  }

  predicate WellFormedField(f: Field) {
    match f
    case IntField(_, _, format, _, _) => ValidFormat(format)
    case TextField(_, _) => true
    case ChunkField(_, size, _) => size >= 1
    case ArrayField(_, element, _, count, closure, _) =>
      && WellFormed(element)
      && closure !in Closures(element)
      && (count.All? || count.AtLeast? ==> HasScalar(element))
  }

  // ---------------------------------------------------------------- decoding

  predicate IsSuffix(rest: Bytes, buf: Bytes) {
    |rest| <= |buf| && rest == buf[|buf| - |rest|..]
  }

  lemma Suffixes(a: Bytes, b: Bytes, c: Bytes)
    ensures IsSuffix(c, c)
    ensures IsSuffix(a, b) && IsSuffix(b, c) ==> IsSuffix(a, c)
  {
    if IsSuffix(a, b) && IsSuffix(b, c) {
      DropTwice(c, |c| - |b|, |b| - |a|);
    }
  }

  /** `buffer.find(b'\x00')`, or the length when there is no terminator. */
  function Terminator(buf: Bytes): (n: nat)
    ensures n <= |buf|
    ensures forall i :: 0 <= i < n ==> buf[i] != 0
    ensures n < |buf| ==> buf[n] == 0
  {
    if buf == [] || buf[0] == 0 then 0 else 1 + Terminator(buf[1..])
  }

  /** How many elements an array wants; no `limit` for `all` and `at_least`, whose counter is always
      ahead of the loop. */
  datatype Bound = Bound(limit: Option<int>, minimum: int)

  function BoundOf(count: Count, values: Record): (r: Outcome<Bound>)
    ensures r.Ok? && r.value.limit.Some? ==> r.value.minimum == r.value.limit.value
    ensures r.Ok? && r.value.limit.None? ==> count.All? || count.AtLeast?
    ensures !r.Broken?
  {
    match count
    case Exactly(n) => Ok(Bound(Some(n), n))
    case ValueOf(name) =>
      if name in values && values[name].IntV? then Ok(Bound(Some(values[name].i), values[name].i)) else Crash
    case All => Ok(Bound(None, -1))
    case AtLeast(n) => Ok(Bound(None, n))
  }

  function Decode(fields: seq<Field>, buf: Bytes, values: Record): (r: Outcome<(Record, Bytes)>)
    requires WellFormed(fields)
    ensures r.Ok? ==> IsSuffix(r.value.1, buf)
    ensures r.Ok? && HasScalar(fields) ==> |r.value.1| < |buf|
    decreases fields, 0, 0
  {
    if |fields| == 0 then Ok((values, buf)) else
    match DecodeField(fields[0], buf, values)
    case Ok((v, rest)) =>
      assert HasScalar(fields) ==> !fields[0].ArrayField? || HasScalar(fields[1..]) by {
        if i :| 0 <= i < |fields| && !fields[i].ArrayField? && i > 0 {
          assert fields[1..][i - 1] == fields[i];
        }
      }
      Decode(fields[1..], rest, values[fields[0].name := v])
    case Broken => Broken
    case Crash => Crash
  }

  function DecodeField(f: Field, buf: Bytes, values: Record): (r: Outcome<(Value, Bytes)>)
    requires WellFormedField(f)
    ensures r.Ok? ==> IsSuffix(r.value.1, buf)
    ensures r.Ok? && !f.ArrayField? ==> |r.value.1| < |buf|
    decreases f, 0, 0
  {
    match f
    case IntField(_, _, format, accepts, kind) =>
      if |buf| < format.width then Broken else
      var v := Unpack(format, buf[..format.width]);
      if !accepts(v) then Broken
      else if !ValidId(kind, v) then Crash
      else Ok((if kind.Number? then IntV(v) else IdV(kind, v), buf[format.width..]))
    case TextField(_, _) =>
      var n := Terminator(buf);
      if n == |buf| then Broken else Ok((TextV(buf[..n]), buf[n + 1..]))
    case ChunkField(_, size, _) =>
      if |buf| < size then Broken else Ok((ChunkV(buf[..size]), buf[size..]))
    case ArrayField(_, element, _, count, _, shape) =>
      match BoundOf(count, values)
      case Ok(bound) =>
        (match DecodeMany(element, buf, bound, 0)
         case Ok((items, rest)) =>
           (match Collect(shape, items) case Ok(v) => Ok((v, rest)) case Broken => Broken case Crash => Crash)
         case Broken => Broken
         case Crash => Crash)
      case Broken => Broken
      case Crash => Crash
  }

  /** The array loop: `done` entries are already read. */
  function DecodeMany(element: seq<Field>, buf: Bytes, bound: Bound, done: nat): (r: Outcome<(seq<Record>, Bytes)>)
    requires WellFormed(element)
    requires bound.limit.None? ==> HasScalar(element)
    ensures r.Ok? ==> IsSuffix(r.value.1, buf)
    ensures r.Ok? ==> done + |r.value.0| >= bound.minimum || (bound.limit.Some? && bound.limit.value < bound.minimum)
    decreases element, 1, if bound.limit.None? then |buf|
      else if done < bound.limit.value then bound.limit.value - done else 0
  {
    hide IsSuffix, HasScalar;
    Suffixes(buf, buf, buf);
    if bound.limit.Some? && done >= bound.limit.value then Ok(([], buf)) else
    match Decode(element, buf, map[])
    case Ok((entry, rest)) =>
      (match DecodeMany(element, rest, bound, done + 1)
       case Ok((entries, rest')) => Suffixes(rest', rest, buf); Ok(([entry] + entries, rest'))
       case Broken => Broken
       case Crash => Crash)
    case Broken => if done < bound.minimum then Broken else Ok(([], buf))
    case Crash => Crash
  }

  /** A dictionary key must be hashable: lists, dictionaries, Platform and ServerType objects are not. */
  predicate Hashable(v: Value) {
    v.IntV? || v.TextV? || v.ChunkV?
  }

  function Collect(shape: Shape, items: seq<Record>): (r: Outcome<Value>)
    ensures !r.Broken?
    ensures shape.AsList? ==> r == Ok(ListV(items))
  {
    if shape.AsList? then Ok(ListV(items)) else
    match Pairs(shape.key, shape.value, items, map[]) case Ok(m) => Ok(DictV(m)) case Broken => Crash
      case Crash => Crash
  }

  /** The loop that fills the dictionary. */
  function Pairs(
      key: string, value: string, items: seq<Record>, acc: map<Value, Value>): (r: Outcome<map<Value, Value>>)
    ensures !r.Broken?
  {
    if items == [] then Ok(acc)
    else if key in items[0] && value in items[0] && Hashable(items[0][key]) then
      Pairs(key, value, items[1..], acc[items[0][key] := items[0][value]])
    else Crash
  }

  // ---------------------------------------------------------------- encoding

  /** Header().encode(split=NO_SPLIT). */
  const NO_SPLIT_HEADER: Bytes := [255, 255, 255, 255]

  /** The `minimum` attribute that each `value_of` closure has, once it has been called. */
  type Minimums = map<nat, Value>

  /** The value to encode: `use_self_default`.  A missing optional field without a default is skipped. */
  function Given(name: string, presence: Presence, values: Record): Outcome<Option<Value>> {
    if name in values then Ok(Some(values[name])) else
    match presence
    case Required => Crash
    case Skippable => Ok(None)
    case WithDefault(v) => Ok(Some(v))
  }

  /** What iterating over the given value yields: elements, characters, keys, or a TypeError.
      Characters and keys are not instances of the element class. */
  function ElementsOf(v: Value): Outcome<seq<Record>> {
    match v
    case ListV(items) => Ok(items)
    case DictV(m) => if m == map[] then Ok([]) else Broken
    case TextV(t) => if t == [] then Ok([]) else Broken
    case IntV(_) => Crash
    case ChunkV(_) => Crash
    case IdV(_, _) => Crash
  }

  function EncodeMessage(
      packet: bool, fields: seq<Field>, values: Record, mins: Minimums): (r: (Outcome<Bytes>, Minimums))
    requires WellFormed(fields)
    decreases fields, 1, 0
  {
    var (encoded, mins') := Encode(fields, values, mins);
    (if packet && encoded.Ok? then Ok(NO_SPLIT_HEADER + encoded.value) else encoded, mins')
  }

  function Encode(fields: seq<Field>, values: Record, mins: Minimums): (r: (Outcome<Bytes>, Minimums))
    requires WellFormed(fields)
    decreases fields, 0, 0
  {
    if |fields| == 0 then (Ok([]), mins) else
    var (first, mins1) := EncodeField(fields[0], values, mins);
    if !first.Ok? then (first, mins1) else
    var (rest, mins2) := Encode(fields[1..], values, mins1);
    if !rest.Ok? then (rest, mins2) else (Ok(first.value + rest.value), mins2)
  }

  function EncodeField(f: Field, values: Record, mins: Minimums): (r: (Outcome<Bytes>, Minimums))
    requires WellFormedField(f)
    decreases f, 0, 0
  {
    match f
    case IntField(name, presence, format, accepts, _) =>
      (match Given(name, presence, values)
       case Ok(None) => (Ok([]), mins)
       case Ok(Some(v)) => (if v.IntV? && accepts(v.i) then Pack(format, v.i) else Broken, mins)
       case Broken => (Broken, mins)
       case Crash => (Crash, mins))
    case TextField(name, presence) =>
      (match Given(name, presence, values)
       case Ok(None) => (Ok([]), mins)
       case Ok(Some(v)) => (if v.TextV? then Ok(v.text + [0]) else Crash, mins)
       case Broken => (Broken, mins)
       case Crash => (Crash, mins))
    case ChunkField(name, size, packable) =>
      if name !in values || !packable then (Crash, mins)
      else if values[name].ChunkV? && |values[name].raw| == size then (Ok(values[name].raw), mins)
      else (Broken, mins)
    case ArrayField(name, element, packet, count, closure, _) =>
      if name !in values then (Crash, mins) else
      match ElementsOf(values[name])
      case Ok(items) => EncodeItems(f, items, 0, values, mins)
      case Broken => (Broken, mins)
      case Crash => (Crash, mins)
  }

  /** The element loop of MessageArrayField.encode, from element `i` on.  Calling a `value_of` closure
      stores its result as the closure's minimum; with no elements nothing is called, so the minimum is
      the one some earlier call has left behind. */
  function EncodeItems(
      f: Field, items: seq<Record>, i: nat, values: Record, mins: Minimums): (r: (Outcome<Bytes>, Minimums))
    requires f.ArrayField? && WellFormedField(f) && i <= |items|
    decreases f.element, 2, |items| - i
  {
    if i == |items| then (CheckMinimum(f.count, f.closure, |items|, mins), mins) else
    var mins1 := Called(f.count, f.closure, values, mins);
    match BoundOf(f.count, values)
    case Ok(bound) =>
      if bound.limit.Some? && i + 1 > bound.limit.value then (Broken, mins1) else
      var (first, mins2) := EncodeMessage(f.packet, f.element, items[i], mins1);
      if !first.Ok? then (first, mins2) else
      var (rest, mins3) := EncodeItems(f, items, i + 1, values, mins2);
      if !rest.Ok? then (rest, mins3) else (Ok(first.value + rest.value), mins3)
    case Broken => (Broken, mins1)
    case Crash => (Crash, mins1)
  }

  /** The closures' minimums after one more call of the array's count. */
  function Called(count: Count, closure: nat, values: Record, mins: Minimums): Minimums {
    if count.ValueOf? && count.name in values then mins[closure := values[count.name]] else mins
  }

  function CheckMinimum(count: Count, closure: nat, written: nat, mins: Minimums): (r: Outcome<Bytes>)
    ensures r.Ok? ==> r.value == []
  {
    match count
    case Exactly(n) => if written < n then Broken else Ok([])
    case All => Ok([])
    case AtLeast(n) => if written < n then Broken else Ok([])
    case ValueOf(_) =>
      if closure !in mins || !mins[closure].IntV? then Crash
      else if written < mins[closure].i then Broken else Ok([])
  }
}
