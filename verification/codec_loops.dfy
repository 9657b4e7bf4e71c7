/** The loops of Message.encode, Message.decode, MessageArrayField.encode and MessageArrayField.decode,
    with the state that their count closures keep between calls. */
module CodecLoops {
  import opened Outcomes
  import opened Wire
  import opened Codec
  import opened CodecLaws

  /** How a call may change the closures: counters are only advanced, and minimums of closures that are not the
      message's `own` are left alone. */
  ghost predicate Drift(mins: Minimums, calls: map<nat, nat>, mins': Minimums, calls': map<nat, nat>, own: set<nat>) {
    && (forall c :: c in calls ==> c in calls' && calls[c] <= calls'[c])
    && (forall c :: c !in own ==> (c in mins <==> c in mins') && (c in mins ==> mins'[c] == mins[c]))
  }

  lemma DriftOn(
      m0: Minimums, c0: map<nat, nat>, m1: Minimums, c1: map<nat, nat>, m2: Minimums, c2: map<nat, nat>,
      own1: set<nat>, own2: set<nat>)
    requires Drift(m0, c0, m1, c1, own2) && Drift(m1, c1, m2, c2, own1) && own1 <= own2
    ensures Drift(m0, c0, m2, c2, own2)
  {
  }

  lemma DriftSpares(m: Minimums, c: map<nat, nat>, m': Minimums, c': map<nat, nat>, own: set<nat>, closure: nat)
    requires Drift(m, c, m', c', own) && closure !in own
    ensures closure in m ==> closure in m' && m'[closure] == m[closure]
    ensures closure in c ==> closure in c' && c[closure] <= c'[closure]
  {
  }

  /** The mutable state of all count closures: the `minimum` attribute that `value_of` sets on its function
      and the counter cell `i` of `all` and `at_least`, which starts at one and is never reset (kept here
      as the number of calls so far). */
  class CountClosures {
    var minimum: Minimums
    var calls: map<nat, nat>

    constructor ()
      ensures minimum == map[] && calls == map[]
    {
      minimum, calls := map[], map[];
    }

    function Tick(closure: nat): (t: nat)
      ensures t >= 1
      reads this
    {
      if closure in calls then 1 + calls[closure] else 1
    }

    /** One call of an array's count. */
    method Call(count: Count, closure: nat, values: Record) returns (r: Outcome<int>)
      modifies this
      ensures minimum == Called(count, closure, values, old(minimum))
      ensures Drift(old(minimum), old(calls), minimum, calls, {closure})
      ensures calls == if count.All? || count.AtLeast? then old(calls)[closure := old(Tick(closure))] else old(calls)
      ensures BoundOf(count, values).Crash? ==> r == Crash
      ensures BoundOf(count, values).Ok? ==> r.Ok?
      ensures BoundOf(count, values).Ok? && BoundOf(count, values).value.limit.Some? ==>
        r.value == BoundOf(count, values).value.limit.value
      ensures count.All? || count.AtLeast? ==> r == Ok(old(Tick(closure)) + 1)
    {
      match count
      case Exactly(n) => r := Ok(n);
      case ValueOf(name) =>
        if name in values {
          minimum := minimum[closure := values[name]];
          r := if values[name].IntV? then Ok(values[name].i) else Crash;
        } else {
          r := Crash;
        }
      case All =>
        calls := calls[closure := Tick(closure)];
        r := Ok(Tick(closure));
      case AtLeast(_) =>
        calls := calls[closure := Tick(closure)];
        r := Ok(Tick(closure));
    }

    /** The `minimum` attribute of an array's count; AttributeError when `value_of` was never called. */
    function Minimum(count: Count, closure: nat): Outcome<int>
      reads this
    {
      match count
      case Exactly(n) => Ok(n)
      case All => Ok(-1)
      case AtLeast(n) => Ok(n)
      case ValueOf(_) => if closure in minimum && minimum[closure].IntV? then Ok(minimum[closure].i) else Crash
    }
  }

  // ---------------------------------------------------------------- decoding

  function OwnClosures(f: Field): set<nat> {
    if f.ArrayField? then {f.closure} + Closures(f.element) else {}
  }

  lemma ClosuresAt(fields: seq<Field>, i: nat)
    requires i < |fields|
    ensures OwnClosures(fields[i]) <= Closures(fields)
    ensures WellFormed(fields) ==> WellFormedField(fields[i])
  {
    if i > 0 {
      ClosuresAt(fields[1..], i - 1);
    }
  }

  /** Field names are distinct, and no array shares its count with another field. */
  ghost predicate Distinct(fields: seq<Field>) {
    && (forall i, j :: 0 <= i < j < |fields| ==> fields[i].name != fields[j].name)
    && (forall i, j :: 0 <= i < |fields| && 0 <= j < |fields| && i != j && fields[i].ArrayField? ==>
          fields[i].closure !in OwnClosures(fields[j]))
  }

  /** What is stored for the count of an array is the value that it refers to. */
  ghost predicate CountStored(f: Field, values: Record, mins: Minimums) {
    f.ArrayField? && f.count.ValueOf? ==>
      f.count.name in values && f.closure in mins && mins[f.closure] == values[f.count.name]
  }

  /** The values so far are those of the first `i` fields, and so are the stored counts. */
  ghost predicate CountsStored(fields: seq<Field>, i: nat, values: Record, mins: Minimums)
    requires i <= |fields|
  {
    && (forall n :: n in values ==> exists k :: 0 <= k < i && fields[k].name == n)
    && (Distinct(fields) ==> forall k :: 0 <= k < i ==> CountStored(fields[k], values, mins))
  }

  lemma CountStays(
      f: Field, g: Field, values: Record, v: Value, m: Minimums, c: map<nat, nat>, m': Minimums, c': map<nat, nat>)
    requires CountStored(f, values, m) && Drift(m, c, m', c', OwnClosures(g))
    requires f.ArrayField? ==> f.closure !in OwnClosures(g)
    requires g.name !in values
    ensures CountStored(f, values[g.name := v], m')
  {
  }

  lemma OneMoreStored(
      fields: seq<Field>, i: nat, values: Record, v: Value, m: Minimums, c: map<nat, nat>, m': Minimums,
      c': map<nat, nat>)
    requires i < |fields| && CountsStored(fields, i, values, m)
    requires Drift(m, c, m', c', OwnClosures(fields[i])) && CountStored(fields[i], values, m')
    ensures CountsStored(fields, i + 1, values[fields[i].name := v], m')
  {
    var values' := values[fields[i].name := v];
    hide Drift, OwnClosures, CountStored;
    if Distinct(fields) {
      forall k | 0 <= k < i ensures CountStored(fields[k], values', m') {
        CountStays(fields[k], fields[i], values, v, m, c, m', c');
      }
      StillStored(fields[i], values, v, m');
    }
    forall n | n in values' ensures exists k :: 0 <= k < i + 1 && fields[k].name == n {
      if n != fields[i].name {
        var k :| 0 <= k < i && fields[k].name == n;
      }
    }
  }

  lemma StillStored(f: Field, values: Record, v: Value, mins: Minimums)
    requires CountStored(f, values, mins) && f.name !in values
    ensures CountStored(f, values[f.name := v], mins)
  {
  }

  /** Message.decode.  Afterwards every count of the message holds the number that was decoded for it. */
  method DecodeMessage(fields: seq<Field>, packet: Bytes, closures: CountClosures) returns (r: Outcome<(Record, Bytes)>)
    requires WellFormed(fields)
    modifies closures
    ensures r == Decode(fields, packet, map[])
    ensures Drift(old(closures.minimum), old(closures.calls), closures.minimum, closures.calls, Closures(fields))
    ensures r.Ok? ==> CountsStored(fields, |fields|, r.value.0, closures.minimum)
    decreases fields, 1, 0
  {
    var buffer, values := packet, map[];
    assert Drift(closures.minimum, closures.calls, closures.minimum, closures.calls, Closures(fields));
    assert CountsStored(fields, 0, values, closures.minimum);
    hide DecodeField, OwnClosures, Closures, HasScalar, IsSuffix, WellFormedField, CountStored, CountsStored, Drift;
    for i := 0 to |fields|
      invariant CountsStored(fields, i, values, closures.minimum)
      invariant WellFormed(fields[i..])
      invariant Decode(fields, packet, map[]) == Decode(fields[i..], buffer, values)
      invariant Drift(old(closures.minimum), old(closures.calls), closures.minimum, closures.calls, Closures(fields))
    {
      ClosuresAt(fields, i);
      assert fields[i..][0] == fields[i] && fields[i..][1..] == fields[i + 1..];
      ghost var m, c := closures.minimum, closures.calls;
      var decoded := DecodeOne(fields[i], buffer, values, closures);
      DriftOn(old(closures.minimum), old(closures.calls), m, c, closures.minimum, closures.calls,
        OwnClosures(fields[i]), Closures(fields));
      match decoded {
        case Ok((v, rest)) =>
          OneMoreStored(fields, i, values, v, m, c, closures.minimum, closures.calls);
          values, buffer := values[fields[i].name := v], rest;
        case Broken => return Broken;
        case Crash => return Crash;
      }
    }
    return Ok((values, buffer));
  }

  method DecodeOne(
      f: Field, buffer: Bytes, values: Record, closures: CountClosures) returns (r: Outcome<(Value, Bytes)>)
    requires WellFormedField(f)
    modifies closures
    ensures r == DecodeField(f, buffer, values)
    ensures Drift(old(closures.minimum), old(closures.calls), closures.minimum, closures.calls, OwnClosures(f))
    ensures r.Ok? ==> CountStored(f, values, closures.minimum)
    decreases f, 1, 0
  {
    if f.ArrayField? {
      var decoded := DecodeArray(f, buffer, values, closures);
      match decoded {
        case Ok((entries, rest)) =>
          match Collect(f.shape, entries) {
            case Ok(v) => r := Ok((v, rest));
            case Broken => r := Broken;
            case Crash => r := Crash;
          }
        case Broken => r := Broken;
        case Crash => r := Crash;
      }
    } else {
      r := DecodeField(f, buffer, values);
    }
  }

  lemma CallDrift(
      f: Field, m: Minimums, c: map<nat, nat>, m1: Minimums, c1: map<nat, nat>, m2: Minimums, c2: map<nat, nat>)
    requires f.ArrayField? && Drift(m, c, m1, c1, OwnClosures(f)) && Drift(m1, c1, m2, c2, {f.closure})
    ensures Drift(m, c, m2, c2, OwnClosures(f))
  {
    hide Drift;
    DriftOn(m, c, m1, c1, m2, c2, {f.closure}, OwnClosures(f));
  }

  /** An element leaves the count of its own array alone. */
  lemma ElementDrift(
      f: Field, m: Minimums, c: map<nat, nat>, m1: Minimums, c1: map<nat, nat>, m2: Minimums, c2: map<nat, nat>)
    requires f.ArrayField? && f.closure !in Closures(f.element)
    requires Drift(m, c, m1, c1, OwnClosures(f)) && Drift(m1, c1, m2, c2, Closures(f.element))
    ensures Drift(m, c, m2, c2, OwnClosures(f))
    ensures f.closure in m1 ==> f.closure in m2 && m2[f.closure] == m1[f.closure]
    ensures f.closure in c1 ==> f.closure in c2 && c1[f.closure] <= c2[f.closure]
  {
    hide Drift;
    DriftOn(m, c, m1, c1, m2, c2, Closures(f.element), OwnClosures(f));
    DriftSpares(m1, c1, m2, c2, Closures(f.element), f.closure);
  }

  /** MessageArrayField.decode.  Without an upper limit the counter stays ahead of `count`, so only an element
      that cannot be decoded ends the loop. */
  method DecodeArray(
      f: Field, packet: Bytes, values: Record, closures: CountClosures) returns (r: Outcome<(seq<Record>, Bytes)>)
    requires f.ArrayField? && WellFormedField(f)
    modifies closures
    ensures BoundOf(f.count, values).Crash? ==> r == Crash
    ensures BoundOf(f.count, values).Ok? ==> r == DecodeMany(f.element, packet, BoundOf(f.count, values).value, 0)
    ensures f.count.ValueOf? && r.Ok? ==>
      f.closure in closures.minimum && closures.minimum[f.closure] == values[f.count.name]
    ensures Drift(old(closures.minimum), old(closures.calls), closures.minimum, closures.calls, OwnClosures(f))
    decreases f, 0, 0
  {
    var buffer, entries, count := packet, [], 0;
    var bounded := BoundOf(f.count, values);
    if bounded.Crash? {
      var c := closures.Call(f.count, f.closure, values);
      return Crash;
    }
    ghost var bound := bounded.value;
    hide WellFormed, Decode, DecodeMany, HasScalar, Closures, PrependEntries, Drift, OwnClosures, IsSuffix, BoundOf;
    while true
      invariant |entries| == count
      invariant DecodeMany(f.element, packet, bound, 0) ==
        PrependEntries(entries, DecodeMany(f.element, buffer, bound, count))
      invariant bound.limit.None? ==> closures.Tick(f.closure) > count
      invariant Drift(old(closures.minimum), old(closures.calls), closures.minimum, closures.calls, OwnClosures(f))
      decreases if bound.limit.None? then |buffer| else if count < bound.limit.value then bound.limit.value - count
        else 0
    {
      DecodeManyTurn(f.element, entries, buffer, bound, count);
      ghost var m0, c0 := closures.minimum, closures.calls;
      var c := closures.Call(f.count, f.closure, values);
      ghost var m1, c1 := closures.minimum, closures.calls;
      CallDrift(f, old(closures.minimum), old(closures.calls), m0, c0, m1, c1);
      if count >= c.value {
        break;
      }
      var entry := DecodeMessage(f.element, buffer, closures);
      ElementDrift(f, old(closures.minimum), old(closures.calls), m1, c1, closures.minimum, closures.calls);
      match entry {
        case Ok((values', rest)) =>
          buffer, entries, count := rest, entries + [values'], count + 1;
        case Broken =>
          if count < closures.Minimum(f.count, f.closure).value {
            return Broken;
          }
          return Ok((entries, buffer));
        case Crash =>
          return Crash;
      }
    }
    return Ok((entries, buffer));
  }

  // ---------------------------------------------------------------- encoding

  function PrependBytes(buf: Bytes, r: (Outcome<Bytes>, Minimums)): (r': (Outcome<Bytes>, Minimums))
    ensures buf == [] ==> r' == r
    ensures r.0 == Ok([]) ==> r' == (Ok(buf), r.1)
    ensures !r.0.Ok? ==> r' == r
  {
    assert buf + [] == buf && (r.0.Ok? ==> [] + r.0.value == r.0.value);
    if r.0.Ok? then (Ok(buf + r.0.value), r.1) else r
  }

  /** One turn of the encoding loop. */
  lemma EncodeItemsTurn(f: Field, elements: seq<Record>, buf: Bytes, i: nat, values: Record, mins: Minimums)
    requires f.ArrayField? && WellFormedField(f) && i < |elements|
    ensures
      var bound := BoundOf(f.count, values);
      var mins1 := Called(f.count, f.closure, values, mins);
      var encoded := EncodeMessage(f.packet, f.element, elements[i], mins1);
      PrependBytes(buf, EncodeItems(f, elements, i, values, mins)) ==
        if bound.Crash? then (Crash, mins1)
        else if bound.value.limit.Some? && i + 1 > bound.value.limit.value then (Broken, mins1)
        else if !encoded.0.Ok? then encoded
        else PrependBytes(buf + encoded.0.value, EncodeItems(f, elements, i + 1, values, encoded.1))
  {
    var mins1 := Called(f.count, f.closure, values, mins);
    var encoded := EncodeMessage(f.packet, f.element, elements[i], mins1);
    var rest := EncodeItems(f, elements, i + 1, values, encoded.1);
    if encoded.0.Ok? && rest.0.Ok? {
      assert buf + (encoded.0.value + rest.0.value) == (buf + encoded.0.value) + rest.0.value;
    }
  }

  /** Message.encode. */
  method EncodeFields(fields: seq<Field>, values: Record, closures: CountClosures) returns (r: Outcome<Bytes>)
    requires WellFormed(fields)
    modifies closures
    ensures (r, closures.minimum) == Encode(fields, values, old(closures.minimum))
    ensures forall c :: c in old(closures.calls) ==> c in closures.calls && old(closures.calls)[c] <= closures.calls[c]
    decreases fields, 1, 0
  {
    var buf := [];
    for i := 0 to |fields|
      invariant WellFormed(fields[i..])
      invariant Encode(fields, values, old(closures.minimum)) ==
        PrependBytes(buf, Encode(fields[i..], values, closures.minimum))
      invariant forall c :: c in old(closures.calls) ==>
        c in closures.calls && old(closures.calls)[c] <= closures.calls[c]
    {
      assert fields[i..][0] == fields[i] && fields[i..][1..] == fields[i + 1..];
      var encoded := EncodeOne(fields[i], values, closures);
      if !encoded.Ok? {
        return encoded;
      }
      ghost var rest := Encode(fields[i + 1..], values, closures.minimum);
      assert rest.0.Ok? ==> buf + (encoded.value + rest.0.value) == (buf + encoded.value) + rest.0.value;
      buf := buf + encoded.value;
    }
    return Ok(buf);
  }

  method EncodeOne(f: Field, values: Record, closures: CountClosures) returns (r: Outcome<Bytes>)
    requires WellFormedField(f)
    modifies closures
    ensures (r, closures.minimum) == EncodeField(f, values, old(closures.minimum))
    ensures forall c :: c in old(closures.calls) ==> c in closures.calls && old(closures.calls)[c] <= closures.calls[c]
    decreases f, 1, 0
  {
    if f.ArrayField? && f.name in values && ElementsOf(values[f.name]).Ok? {
      r := EncodeArray(f, ElementsOf(values[f.name]).value, values, closures);
    } else {
      r := EncodeField(f, values, closures.minimum).0;
    }
  }

  /** MessageArrayField.encode; the count is called again for every element. */
  method EncodeArray(
      f: Field, elements: seq<Record>, values: Record, closures: CountClosures) returns (r: Outcome<Bytes>)
    requires f.ArrayField? && WellFormedField(f)
    modifies closures
    ensures (r, closures.minimum) == EncodeItems(f, elements, 0, values, old(closures.minimum))
    ensures forall c :: c in old(closures.calls) ==> c in closures.calls && old(closures.calls)[c] <= closures.calls[c]
    decreases f, 0, 0
  {
    var buf := [];
    hide WellFormed, Encode, HasScalar, Closures, PrependBytes;
    for i := 0 to |elements|
      invariant EncodeItems(f, elements, 0, values, old(closures.minimum)) ==
        PrependBytes(buf, EncodeItems(f, elements, i, values, closures.minimum))
      invariant f.count.All? || f.count.AtLeast? ==> closures.Tick(f.closure) > i
      invariant forall c :: c in old(closures.calls) ==>
        c in closures.calls && old(closures.calls)[c] <= closures.calls[c]
    {
      EncodeItemsTurn(f, elements, buf, i, values, closures.minimum);
      var c := closures.Call(f.count, f.closure, values);
      if c.Crash? {
        return Crash;
      }
      if i + 1 > c.value {
        return Broken;
      }
      var encoded := EncodeFields(f.element, elements[i], closures);
      if !encoded.Ok? {
        return encoded;
      }
      var element := if f.packet then NO_SPLIT_HEADER + encoded.value else encoded.value;
      buf := buf + element;
    }
    var minimum := closures.Minimum(f.count, f.closure);
    if !minimum.Ok? {
      return Crash;
    }
    if |elements| < minimum.value {
      return Broken;
    }
    return Ok(buf);
  }
}
