/** An example of arrays in arrays: a message that is decoded and cannot be encoded again. */
module NestedArrays {
  import opened Outcomes
  import opened Wire
  import opened Codec
  import opened CodecLaws
  import opened CodecEncodable
  import opened Messages
  import opened Reading

  function CellSchema(): (fields: seq<Field>)
    ensures WellFormed(fields) && HasScalar(fields) && Closures(fields) == {} && Unambiguous(fields, {})
  {
    var fields := [ByteField("x")];
    FieldByField(fields);
    assert !fields[0].ArrayField?;
    fields
  }

  function CellsField(): Field {
    ArrayField("cells", CellSchema(), false, ValueOf("n"), 1, AsList)
  }

  function RowSchema(): (fields: seq<Field>)
    ensures WellFormed(fields) && fields == [ByteField("n")] + [CellsField()]
  {
    FieldByField([ByteField("n"), CellsField()]);
    assert [ByteField("n"), CellsField()] == [ByteField("n")] + [CellsField()];
    [ByteField("n"), CellsField()]
  }

  /** Two rows, each with a number and so many cells. */
  function RowsField(): Field {
    ArrayField("rows", RowSchema(), false, Exactly(2), 0, AsList)
  }

  function TableSchema(): seq<Field> {
    [RowsField()]
  }

  function Row(n: int, cells: seq<Record>): Record {
    map["n" := IntV(n), "cells" := ListV(cells)]
  }

  lemma CellDecodes(buf: Bytes)
    requires buf != []
    ensures Decode(CellSchema(), buf, map[]) == Ok((map["x" := IntV(buf[0])], buf[1..]))
  {
    assert CellSchema() == [ByteField("x")] + [];
    ByteStep("x", [], buf, map[]);
  }

  lemma CellsDecode(buf: Bytes)
    ensures DecodeMany(CellSchema(), buf, Bound(Some(0), 0), 0) == Ok(([], buf))
    ensures buf != [] ==>
      DecodeMany(CellSchema(), buf, Bound(Some(1), 1), 0) == Ok(([map["x" := IntV(buf[0])]], buf[1..]))
  {
    hide Decode, DecodeMany, CellSchema;
    DecodeManyNext(CellSchema(), buf, Bound(Some(0), 0), 0);
    if buf != [] {
      CellDecodes(buf);
      DecodeManyNext(CellSchema(), buf, Bound(Some(1), 1), 0);
      DecodeManyNext(CellSchema(), buf[1..], Bound(Some(1), 1), 1);
    }
  }

  lemma RowDecodes(buf: Bytes, cells: seq<Record>, rest: Bytes)
    requires buf != [] && DecodeMany(CellSchema(), buf[1..], Bound(Some(buf[0]), buf[0]), 0) == Ok((cells, rest))
    ensures Decode(RowSchema(), buf, map[]) == Ok((Row(buf[0], cells), rest))
  {
    var acc: Record := map["n" := IntV(buf[0])];
    FieldByField([CellsField()]);
    ByteStep("n", [CellsField()], buf, map[]);
    DecodeCons(CellsField(), [], buf[1..], acc);
    assert [CellsField()] == [CellsField()] + [];
    assert BoundOf(ValueOf("n"), acc) == Ok(Bound(Some(buf[0] as int), buf[0] as int));
    hide DecodeMany, CellSchema, RowSchema, WellFormed;
  }

  lemma RowsDecode(buf: Bytes, row: Record, next: Bytes, row': Record, rest: Bytes)
    requires Decode(RowSchema(), buf, map[]) == Ok((row, next)) && Decode(RowSchema(), next, map[]) == Ok((row', rest))
    ensures DecodeMany(RowSchema(), buf, Bound(Some(2), 2), 0) == Ok(([row, row'], rest))
  {
    hide Decode, DecodeMany, RowSchema;
    DecodeManyNext(RowSchema(), buf, Bound(Some(2), 2), 0);
    DecodeManyNext(RowSchema(), next, Bound(Some(2), 2), 1);
    DecodeManyNext(RowSchema(), rest, Bound(Some(2), 2), 2);
    assert [row] + ([row'] + []) == [row, row'];
  }

  lemma TableDecodes(buf: Bytes, rows: seq<Record>, rest: Bytes)
    requires DecodeMany(RowSchema(), buf, Bound(Some(2), 2), 0) == Ok((rows, rest))
    ensures WellFormed(TableSchema()) && Decode(TableSchema(), buf, map[]) == Ok((map["rows" := ListV(rows)], rest))
  {
    var acc: Record := map[]["rows" := ListV(rows)];
    FieldByField([RowsField()]);
    DecodeCons(RowsField(), [], buf, map[]);
    assert [RowsField()] == [RowsField()] + [];
    assert DecodeField(RowsField(), buf, map[]) == Ok((ListV(rows), rest));
    assert Decode([], rest, acc) == Ok((acc, rest));
    hide Decode, DecodeField, DecodeMany, RowSchema, WellFormed;
    assert acc == map["rows" := ListV(rows)];
  }

  /** The rows with one cell and with none. */
  function Rows(): seq<Record> {
    [Row(1, [map["x" := IntV(7)]]), Row(0, [])]
  }

  lemma TableFollows()
    ensures Unambiguous(TableSchema(), {}) && TableSchema()[0].element == RowSchema() && RowSchema()[1] == CellsField()
    ensures OwnCount(RowSchema(), 1) && EmptyFollows(CellsField(), Rows(), 0)
  {
    var schema := RowSchema();
    assert schema == [ByteField("n"), CellsField()];
    assert schema[..1] == [ByteField("n")] && schema[2..] == [] && schema[1..] == [CellsField()];
    assert Closures([ByteField("n")]) == {} && Closures([]) == {};
    hide WellFormed, CellSchema;
  }

  const PACKET: Bytes := [1, 7, 0]

  lemma PacketParts()
    ensures PACKET != [] && PACKET[0] == 1 && PACKET[1..] != [] && PACKET[1..][0] == 7
    ensures PACKET[1..][1..] != [] && PACKET[1..][1..][0] == 0 && PACKET[1..][1..][1..] == []
  {
  }

  lemma TableListed()
    ensures var values: Record := map["rows" := ListV(Rows())]; "rows" in values && values["rows"] == ListV(Rows())
    ensures |TableSchema()| == 1 && TableSchema()[0] == RowsField()
    ensures RowsField().ArrayField? && RowsField().name == "rows"
    ensures CellsField().closure != RowsField().closure
  {
  }

  lemma RowsAre()
    ensures Rows() == [Row(1, [map["x" := IntV(7)]]), Row(0, [])]
  {
  }

  /** Three bytes that are decoded as two rows, of which only the first has a cell, and never encoded again, whatever
      minimums are stored. */
  lemma NeverEncodedAgain(mins: Minimums)
    ensures WellFormed(TableSchema()) && Decode(TableSchema(), PACKET, map[]) == Ok((map["rows" := ListV(Rows())], []))
    ensures !Encode(TableSchema(), map["rows" := ListV(Rows())], mins).0.Ok?
  {
    hide *;
    PacketParts();
    RowsAre();
    var second := PACKET[1..][1..];
    CellsDecode(PACKET[1..]);
    RowDecodes(PACKET, [map["x" := IntV(7)]], second);
    CellsDecode(second[1..]);
    RowDecodes(second, [], []);
    RowsDecode(PACKET, Row(1, [map["x" := IntV(7)]]), second, Row(0, []), []);
    TableDecodes(PACKET, Rows(), []);
    TableFollows();
    TableListed();
    NestedNeverEncodes(TableSchema(), 0, 1, 0, PACKET, mins);
  }
}
