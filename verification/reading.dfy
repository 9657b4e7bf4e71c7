/** Reading the fields of a schema one after another from plain bytes. */
module Reading {
  import opened Outcomes
  import opened Wire
  import opened Codec
  import opened CodecLaws
  import opened Messages

  lemma ByteStep(name: string, rest: seq<Field>, buf: Bytes, acc: Record)
    requires WellFormed(rest)
    ensures WellFormed([ByteField(name)] + rest)
    ensures Decode([ByteField(name)] + rest, buf, acc) ==
      if buf == [] then Broken else Decode(rest, buf[1..], acc[name := IntV(buf[0])])
  {
    DecodeCons(ByteField(name), rest, buf, acc);
    if buf != [] {
      ByteValue(buf[0]);
      assert buf[..1] == [buf[0]];
    }
  }

  lemma TextStep(name: string, rest: seq<Field>, buf: Bytes, acc: Record)
    requires WellFormed(rest)
    ensures WellFormed([StringField(name)] + rest)
    ensures var n := Terminator(buf);
      Decode([StringField(name)] + rest, buf, acc) ==
        if n == |buf| then Broken else Decode(rest, buf[n + 1..], acc[name := TextV(buf[..n])])
  {
    DecodeCons(StringField(name), rest, buf, acc);
  }

  /** Decoding one schema and then another. */
  lemma {:induction false} DecodeBoth(front: seq<Field>, back: seq<Field>, buf: Bytes, acc: Record)
    requires WellFormed(front) && WellFormed(back)
    ensures WellFormed(front + back)
    ensures Decode(front + back, buf, acc) ==
      match Decode(front, buf, acc)
      case Ok((values, rest)) => Decode(back, rest, values)
      case Broken => Broken
      case Crash => Crash
    decreases |front|
  {
    if front == [] {
      assert front + back == back;
    } else {
      var f, more := front[0], front[1..];
      assert front == [f] + more;
      Reassociate([f], more, back);
      Concatenated(more, back);
      DecodeCons(f, more, buf, acc);
      DecodeCons(f, more + back, buf, acc);
      hide Decode, DecodeField, WellFormed;
      if DecodeField(f, buf, acc).Ok? {
        var (v, next) := DecodeField(f, buf, acc).value;
        DecodeBoth(more, back, next, acc[f.name := v]);
      }
    }
  }

  /** A text up to its terminator, and what follows it. */
  function ReadText(buf: Bytes): Option<(Bytes, Bytes)> {
    var n := Terminator(buf);
    if n == |buf| then None else Some((buf[..n], buf[n + 1..]))
  }

  lemma ReadTextIs(text: Bytes, rest: Bytes)
    requires 0 !in text
    ensures ReadText(text + [0] + rest) == Some((text, rest))
  {
    var buf := text + [0] + rest;
    TerminatorOf(text, rest);
    assert buf[..|text|] == text && buf[|text| + 1..] == rest;
  }

  function TextFields(names: seq<string>): (fields: seq<Field>)
    ensures WellFormed(fields)
  {
    if names == [] then [] else [StringField(names[0])] + TextFields(names[1..])
  }

  /** Texts one after another, each put under its name. */
  function ReadTexts(names: seq<string>, buf: Bytes, acc: Record): Option<(Record, Bytes)> {
    if names == [] then Some((acc, buf)) else
    match ReadText(buf)
    case None => None
    case Some((text, rest)) => ReadTexts(names[1..], rest, acc[names[0] := TextV(text)])
  }

  lemma {:induction false} TextsRead(names: seq<string>, buf: Bytes, acc: Record)
    ensures Decode(TextFields(names), buf, acc) ==
      match ReadTexts(names, buf, acc) case Some(r) => Ok(r) case None => Broken
    decreases |names|
  {
    if names != [] {
      TextStep(names[0], TextFields(names[1..]), buf, acc);
      if ReadText(buf).Some? {
        var (text, rest) := ReadText(buf).value;
        TextsRead(names[1..], rest, acc[names[0] := TextV(text)]);
      }
      hide Decode, Terminator;
    }
  }

  lemma ShortStep(name: string, rest: seq<Field>, buf: Bytes, acc: Record)
    requires WellFormed(rest)
    ensures WellFormed([ShortField(name)] + rest)
    ensures Decode([ShortField(name)] + rest, buf, acc) ==
      if |buf| < 2 then Broken else Decode(rest, buf[2..], acc[name := IntV(ShortOf(buf[..2]))])
  {
    DecodeCons(ShortField(name), rest, buf, acc);
    if |buf| >= 2 {
      ShortIs(buf[..2]);
    }
    hide Decode, Unpack, ShortOf;
  }

  lemma LongStep(name: string, rest: seq<Field>, buf: Bytes, acc: Record)
    requires WellFormed(rest)
    ensures WellFormed([LongField(name)] + rest)
    ensures Decode([LongField(name)] + rest, buf, acc) ==
      if |buf| < 4 then Broken else Decode(rest, buf[4..], acc[name := IntV(LongOf(buf[..4]))])
  {
    DecodeCons(LongField(name), rest, buf, acc);
    if |buf| >= 4 {
      LongIs(buf[..4]);
    }
    hide Decode, Unpack, LongOf;
  }

  lemma ChunkStep(name: string, size: nat, packable: bool, rest: seq<Field>, buf: Bytes, acc: Record)
    requires WellFormed(rest) && size >= 1
    ensures WellFormed([ChunkField(name, size, packable)] + rest)
    ensures Decode([ChunkField(name, size, packable)] + rest, buf, acc) ==
      if |buf| < size then Broken else Decode(rest, buf[size..], acc[name := ChunkV(buf[..size])])
  {
    DecodeCons(ChunkField(name, size, packable), rest, buf, acc);
  }

  lemma KindStep(name: string, kind: Kind, rest: seq<Field>, buf: Bytes, acc: Record)
    requires WellFormed(rest) && !kind.Number?
    ensures WellFormed([KindField(name, kind)] + rest)
    ensures Decode([KindField(name, kind)] + rest, buf, acc) ==
      if buf == [] then Broken
      else if !ValidId(kind, buf[0]) then Crash
      else Decode(rest, buf[1..], acc[name := IdV(kind, buf[0])])
  {
    DecodeCons(KindField(name, kind), rest, buf, acc);
    if buf != [] {
      ByteValue(buf[0]);
      assert buf[..1] == [buf[0]];
    }
    hide Decode, Unpack, ValidId;
  }

  lemma KindsAre(id: int)
    ensures ValidId(ServerType, id) <==> id == 100 || id == 108 || id == 112
    ensures ValidId(Platform, id) <==> id == 108 || id == 109 || id == 111 || id == 119
  {
  }

  /** A server type is a byte that must be `d`, `l` or `p`. */
  lemma ServerTypeStep(name: string, rest: seq<Field>, buf: Bytes, acc: Record)
    requires WellFormed(rest)
    ensures WellFormed([KindField(name, ServerType)] + rest)
    ensures Decode([KindField(name, ServerType)] + rest, buf, acc) ==
      if buf == [] then Broken
      else if buf[0] != 100 && buf[0] != 108 && buf[0] != 112 then Crash
      else Decode(rest, buf[1..], acc[name := IdV(ServerType, buf[0])])
  {
    hide *;
    KindStep(name, ServerType, rest, buf, acc);
    if buf != [] {
      KindsAre(buf[0]);
    }
  }

  /** A platform is a byte that must be `l`, `m`, `o` or `w`. */
  lemma PlatformStep(name: string, rest: seq<Field>, buf: Bytes, acc: Record)
    requires WellFormed(rest)
    ensures WellFormed([KindField(name, Platform)] + rest)
    ensures Decode([KindField(name, Platform)] + rest, buf, acc) ==
      if buf == [] then Broken
      else if buf[0] != 108 && buf[0] != 109 && buf[0] != 111 && buf[0] != 119 then Crash
      else Decode(rest, buf[1..], acc[name := IdV(Platform, buf[0])])
  {
    hide *;
    KindStep(name, Platform, rest, buf, acc);
    if buf != [] {
      KindsAre(buf[0]);
    }
  }
}
