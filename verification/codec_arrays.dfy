/** Laws of the codec that are about arrays: arrays without an upper limit, and what the count closures keep. */
module CodecArrays {
  import opened Outcomes
  import opened Wire
  import opened Codec
  import opened CodecLaws

  // ---------------------------------------------------------------- arrays without an upper limit

  lemma PrependTwice(entry: Record, entries: seq<Record>, r: Outcome<(seq<Record>, Bytes)>)
    ensures PrependEntries([entry], PrependEntries(entries, r)) == PrependEntries([entry] + entries, r)
  {
    if r.Ok? {
      Reassociate([entry], entries, r.value.0);
    }
  }

  /** An encoded `all` or `at_least` array is read as its elements and whatever more can be read after them. */
  lemma {:induction false} OpenItems(
      f: Field, items: seq<Record>, i: nat, values: Record, mins: Minimums, tail: Bytes)
    requires f.ArrayField? && WellFormedField(f) && WellFormed(f.element) && i <= |items|
    requires f.count.All? || f.count.AtLeast?
    requires !f.packet && Closed(f.element, {}, {})
    requires forall j :: 0 <= j < |items| ==> Plain(f.element, items[j])
    requires EncodeItems(f, items, i, values, mins).0.Ok?
    ensures
      var bound := BoundOf(f.count, values).value;
      DecodeMany(f.element, EncodeItems(f, items, i, values, mins).0.value + tail, bound, i)
        == PrependEntries(NormalItems(f.element, items[i..]), DecodeMany(f.element, tail, bound, |items|))
    decreases |items| - i
  {
    hide WellFormed, Closed, Closures, Encode, Decode, DecodeMany, Plain, HasScalar;
    var bound := BoundOf(f.count, values).value;
    var b := EncodeItems(f, items, i, values, mins).0.value;
    if i == |items| {
      assert b + tail == tail;
    } else {
      var mins1, mins2, first, rest := EncodeItemsStep(f, items, i, values, mins);
      Reassociate(first, rest, tail);
      RoundTrip(f.element, items[i], mins1, rest + tail);
      OpenItems(f, items, i + 1, values, mins2, tail);
      var entry := Normal(f.element, items[i], map[]);
      DecodeManyNext(f.element, b + tail, bound, i);
      assert items[i..][0] == items[i] && items[i..][1..] == items[i + 1..];
      PrependTwice(entry, NormalItems(f.element, items[i + 1..]), DecodeMany(f.element, tail, bound, |items|));
    }
  }

  /** Nothing more is read exactly where no element can be. */
  lemma NothingMore(f: Field, values: Record, mins: Minimums, entries: seq<Record>, tail: Bytes)
    requires f.ArrayField? && WellFormedField(f) && WellFormed(f.element)
    requires f.count.All? || f.count.AtLeast?
    requires CheckMinimum(f.count, f.closure, |entries|, mins).Ok?
    ensures
      var more := DecodeMany(f.element, tail, BoundOf(f.count, values).value, |entries|);
      PrependEntries(entries, more) == Ok((entries, tail)) <==> Decode(f.element, tail, map[]).Broken?
  {
    hide Decode, WellFormed, HasScalar, Closures, IsSuffix;
    var more := DecodeMany(f.element, tail, BoundOf(f.count, values).value, |entries|);
    if Decode(f.element, tail, map[]).Broken? {
      assert entries + [] == entries;
    } else if more.Ok? {
      assert |entries + more.value.0| > |entries|;
    }
  }

  lemma {:induction false} MinimumChecked(f: Field, items: seq<Record>, i: nat, values: Record, mins: Minimums)
    requires f.ArrayField? && WellFormedField(f) && i <= |items| && (f.count.All? || f.count.AtLeast?)
    requires EncodeItems(f, items, i, values, mins).0.Ok?
    ensures CheckMinimum(f.count, f.closure, |items|, mins).Ok?
    decreases |items| - i
  {
    if i < |items| {
      var mins1, mins2, first, rest := EncodeItemsStep(f, items, i, values, mins);
      MinimumChecked(f, items, i + 1, values, mins2);
    }
  }

  /** `all` and `at_least` arrays read back exactly their elements if and only if what follows them cannot be read as
      one more element. */
  lemma RoundTripOpenArray(f: Field, values: Record, mins: Minimums, tail: Bytes, acc: Record)
    requires f.ArrayField? && WellFormedField(f) && WellFormed(f.element) && f.shape.AsList?
    requires f.count.All? || f.count.AtLeast?
    requires !f.packet && Closed(f.element, {}, {}) && PlainField(f, values)
    requires EncodeField(f, values, mins).0.Ok?
    ensures
      DecodeField(f, EncodeField(f, values, mins).0.value + tail, acc) == Ok((NormalField(f, values), tail)) <==>
        Decode(f.element, tail, map[]).Broken?
  {
    var items := values[f.name].items;
    hide WellFormed, Closed, Closures, DecodeMany, EncodeItems, Decode, HasScalar, Plain, NormalItems;
    OpenItems(f, items, 0, values, mins, tail);
    MinimumChecked(f, items, 0, values, mins);
    assert items[0..] == items;
    NothingMore(f, values, mins, NormalItems(f.element, items), tail);
  }

  // ---------------------------------------------------------------- closures keep to themselves

  /** Encoding changes the minimums of no closures but its own. */
  lemma {:induction false} EncodeFrame(fields: seq<Field>, values: Record, mins: Minimums, c: nat)
    requires WellFormed(fields) && c !in Closures(fields)
    ensures var mins' := Encode(fields, values, mins).1;
      (c in mins' <==> c in mins) && (c in mins ==> mins'[c] == mins[c])
    decreases fields, 0, 0
  {
    if |fields| > 0 {
      var f := fields[0];
      if f.ArrayField? && f.name in values && ElementsOf(values[f.name]).Ok? {
        EncodeItemsFrame(f, ElementsOf(values[f.name]).value, 0, values, mins, c);
      }
      EncodeFrame(fields[1..], values, EncodeField(f, values, mins).1, c);
    }
  }

  lemma {:induction false} EncodeItemsFrame(
      f: Field, items: seq<Record>, i: nat, values: Record, mins: Minimums, c: nat)
    requires f.ArrayField? && WellFormedField(f) && i <= |items|
    requires c != f.closure && c !in Closures(f.element)
    ensures var mins' := EncodeItems(f, items, i, values, mins).1;
      (c in mins' <==> c in mins) && (c in mins ==> mins'[c] == mins[c])
    decreases f.element, 1, |items| - i
  {
    if i < |items| {
      var mins1 := Called(f.count, f.closure, values, mins);
      EncodeFrame(f.element, items[i], mins1, c);
      EncodeItemsFrame(f, items, i + 1, values, EncodeMessage(f.packet, f.element, items[i], mins1).1, c);
    }
  }

  // ---------------------------------------------------------------- lengths and empty lists

  lemma {:induction false} DecodedAtMost(element: seq<Field>, buf: Bytes, bound: Bound, done: nat)
    requires WellFormed(element) && (bound.limit.None? ==> HasScalar(element))
    requires DecodeMany(element, buf, bound, done).Ok?
    ensures bound.limit.Some? && DecodeMany(element, buf, bound, done).value.0 != [] ==>
              done + |DecodeMany(element, buf, bound, done).value.0| <= bound.limit.value
    decreases |buf|, if bound.limit.Some? && done < bound.limit.value then bound.limit.value - done else 0
  {
    if DecodeMany(element, buf, bound, done).value.0 != [] {
      var entry, next, entries, left := DecodeManyStep(element, buf, bound, done);
      DecodedAtMost(element, next, bound, done + 1);
    }
  }

  /** For an empty counted array the outcome depends only on what an earlier use of the same closure has left
      behind.  It is fine exactly when that was a count of zero or less. */
  lemma EmptyArrayEncodes(f: Field, values: Record, mins: Minimums)
    requires f.ArrayField? && WellFormedField(f) && f.count.ValueOf?
    requires f.name in values && values[f.name] == ListV([])
    ensures EncodeField(f, values, mins).0.Ok? <==> f.closure in mins && mins[f.closure].IntV? && mins[f.closure].i <= 0
    ensures EncodeField(f, values, mins).0.Crash? <==> !(f.closure in mins && mins[f.closure].IntV?)
  {
    assert EncodeField(f, values, mins) == EncodeItems(f, [], 0, values, mins);
  }
}
