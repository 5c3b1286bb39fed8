/**
  Rows and columns of one component, and what is assumed of the Arrow codec that
  carries them: reading back a column that was encoded gives its values.
*/
module Columns {
  import opened Wrappers
  import opened ByteStrings
  import opened Components

  datatype Cell = IntCell(i: int) | FloatCell(bits: nat) | TextCell(text: Bytes) | BoolCell(flag: bool)

  type Row = seq<Cell>

  datatype Column = Column(field: Field, values: seq<Cell>)

  predicate CellFits(c: Cell, ty: ColumnType) {
    match ty
    case Int64 => c.IntCell?
    case Float64 => c.FloatCell?
    case Utf8 => c.TextCell?
    case Boolean => c.BoolCell?
  }

  predicate RowFits(row: Row, fields: seq<Field>) {
    |row| == |fields| && forall k :: 0 <= k < |row| ==> CellFits(row[k], fields[k].ty)
  }

  predicate RowsFit(rows: seq<Row>, fields: seq<Field>) {
    forall i :: 0 <= i < |rows| ==> RowFits(rows[i], fields)
  }

  /** The liveness segment's label. */
  const ALIVE: Bytes := [95, 95, 97, 108, 105, 118, 101]

  /**
    A segment is one Arrow stream. `encode` is partial: it refuses what the wire
    format cannot carry.
  */
  datatype Codec = Codec(
    labelOf: Bytes -> Bytes,
    rows: Bytes -> nat,
    read: (Bytes, Field) -> Option<seq<Cell>>,
    encode: (Component, seq<Column>) -> Option<Bytes>,
    alive: nat -> Bytes)

  ghost predicate ReadsWholeColumns(codec: Codec) {
    forall ipc: Bytes, f: Field :: codec.read(ipc, f).Some? ==>
      && |codec.read(ipc, f).value| == codec.rows(ipc)
      && forall i :: 0 <= i < codec.rows(ipc) ==> CellFits(codec.read(ipc, f).value[i], f.ty)
  }

  /** What a successfully encoded segment reads back as. */
  ghost predicate ReadsBack(codec: Codec, spec: Component, columns: seq<Column>) {
    codec.encode(spec, columns).Some? ==>
      var ipc := codec.encode(spec, columns).value;
      && ipc != [] && spec.name != [] && spec.name != ALIVE && codec.labelOf(ipc) == spec.name
      && (forall k :: 0 <= k < |columns| ==>
        && codec.rows(ipc) == |columns[k].values|
        && codec.read(ipc, columns[k].field) == Some(columns[k].values))
  }

  ghost predicate Lawful(codec: Codec) {
    && ReadsWholeColumns(codec)
    && (forall spec, columns :: ReadsBack(codec, spec, columns))
    && (forall n :: codec.labelOf(codec.alive(n)) == ALIVE && codec.rows(codec.alive(n)) == n && codec.alive(n) != [])
  }

  // ---------- transposition ----------

  predicate Readable(codec: Codec, ipc: Bytes, fields: seq<Field>) {
    forall k :: 0 <= k < |fields| ==>
      codec.read(ipc, fields[k]).Some? && |codec.read(ipc, fields[k]).value| == codec.rows(ipc)
  }

  /** Row `i` takes value `i` of every column. */
  function RowAt(codec: Codec, ipc: Bytes, fields: seq<Field>, i: nat): Row
    requires Readable(codec, ipc, fields) && i < codec.rows(ipc)
  {
    seq(|fields|, k requires 0 <= k < |fields| => codec.read(ipc, fields[k]).value[i])
  }

  function DecodeRows(codec: Codec, ipc: Bytes, fields: seq<Field>): Option<seq<Row>> {
    if Readable(codec, ipc, fields) then
      Some(seq(codec.rows(ipc), i requires 0 <= i < codec.rows(ipc) => RowAt(codec, ipc, fields, i)))
    else None
  }

  /** Column `k` gathers cell `k` of every row. */
  function ColumnOf(rows: seq<Row>, fields: seq<Field>, k: nat): Column
    requires k < |fields| && forall i :: 0 <= i < |rows| ==> |rows[i]| == |fields|
  {
    Column(fields[k], seq(|rows|, i requires 0 <= i < |rows| => rows[i][k]))
  }

  function ColumnsOf(rows: seq<Row>, fields: seq<Field>): seq<Column>
    requires forall i :: 0 <= i < |rows| ==> |rows[i]| == |fields|
  {
    seq(|fields|, k requires 0 <= k < |fields| => ColumnOf(rows, fields, k))
  }

  lemma DecodedRowsFit(codec: Codec, ipc: Bytes, fields: seq<Field>)
    requires Lawful(codec) && DecodeRows(codec, ipc, fields).Some?
    ensures RowsFit(DecodeRows(codec, ipc, fields).value, fields)
    ensures |DecodeRows(codec, ipc, fields).value| == codec.rows(ipc)
  {
  }

  /** Every decoded cell has the kind of value its column's type names. */
  lemma CellsAreTyped(codec: Codec, ipc: Bytes, fields: seq<Field>, i: nat, k: nat)
    requires Lawful(codec) && DecodeRows(codec, ipc, fields).Some? && i < codec.rows(ipc) && k < |fields|
    ensures
      var cell := DecodeRows(codec, ipc, fields).value[i][k];
      && (fields[k].ty == Int64 <==> cell.IntCell?)
      && (fields[k].ty == Float64 <==> cell.FloatCell?)
      && (fields[k].ty == Utf8 <==> cell.TextCell?)
      && (fields[k].ty == Boolean <==> cell.BoolCell?)
  {
    DecodedRowsFit(codec, ipc, fields);
    assert RowFits(DecodeRows(codec, ipc, fields).value[i], fields);
  }

  /** Encoding rows and decoding the segment gives the rows back: the two transpositions are inverse. */
  lemma DecodeInvertsEncode(codec: Codec, spec: Component, rows: seq<Row>)
    requires Lawful(codec) && spec.fields != [] && RowsFit(rows, spec.fields)
    requires codec.encode(spec, ColumnsOf(rows, spec.fields)).Some?
    ensures var ipc := codec.encode(spec, ColumnsOf(rows, spec.fields)).value;
      codec.rows(ipc) == |rows| && DecodeRows(codec, ipc, spec.fields) == Some(rows)
  {
    var columns := ColumnsOf(rows, spec.fields);
    var ipc := codec.encode(spec, columns).value;
    assert ReadsBack(codec, spec, columns);
    assert columns[0].field == spec.fields[0];
    forall k | 0 <= k < |spec.fields|
      ensures codec.read(ipc, spec.fields[k]) == Some(columns[k].values) && |columns[k].values| == |rows|
    {
      assert columns[k].field == spec.fields[k];
    }
    assert Readable(codec, ipc, spec.fields);
    forall i | 0 <= i < |rows| ensures RowAt(codec, ipc, spec.fields, i) == rows[i] {
      forall k | 0 <= k < |spec.fields| ensures RowAt(codec, ipc, spec.fields, i)[k] == rows[i][k] {
        assert codec.read(ipc, spec.fields[k]) == Some(columns[k].values);
      }
    }
    assert DecodeRows(codec, ipc, spec.fields).value == rows;
  }

  // ---------- the nested loops ----------

  method Decode(codec: Codec, ipc: Bytes, fields: seq<Field>) returns (r: Option<seq<Row>>)
    requires ReadsWholeColumns(codec)
    ensures r == DecodeRows(codec, ipc, fields)
  {
    var view := new Cell[codec.rows(ipc), |fields|];
    var k := 0;
    while k < |fields|
      invariant 0 <= k <= |fields|
      invariant Readable(codec, ipc, fields[..k])
      invariant forall i, j :: 0 <= i < view.Length0 && 0 <= j < k ==> view[i, j] == codec.read(ipc, fields[j]).value[i]
    {
      var values := codec.read(ipc, fields[k]);
      if values.None? {
        return None;
      }
      var i := 0;
      while i < view.Length0
        invariant 0 <= i <= view.Length0
        invariant forall m, j :: 0 <= m < view.Length0 && 0 <= j < k ==> view[m, j] == codec.read(ipc, fields[j]).value[m]
        invariant forall m :: 0 <= m < i ==> view[m, k] == values.value[m]
      {
        view[i, k] := values.value[i];
        i := i + 1;
      }
      k := k + 1;
    }
    assert fields[..k] == fields;
    var rows: seq<Row> := [];
    var i := 0;
    while i < view.Length0
      invariant 0 <= i <= view.Length0 && |rows| == i
      invariant forall m :: 0 <= m < i ==> rows[m] == RowAt(codec, ipc, fields, m)
    {
      var row: Row := [];
      var j := 0;
      while j < view.Length1
        invariant 0 <= j <= view.Length1 && |row| == j
        invariant forall m :: 0 <= m < j ==> row[m] == view[i, m]
      {
        row := row + [view[i, j]];
        j := j + 1;
      }
      assert row == RowAt(codec, ipc, fields, i);
      rows := rows + [row];
      i := i + 1;
    }
    assert rows == DecodeRows(codec, ipc, fields).value;
    r := Some(rows);
  }

  method GatherColumns(rows: seq<Row>, fields: seq<Field>) returns (columns: seq<Column>)
    requires forall i :: 0 <= i < |rows| ==> |rows[i]| == |fields|
    ensures columns == ColumnsOf(rows, fields)
  {
    columns := [];
    var k := 0;
    while k < |fields|
      invariant 0 <= k <= |fields| && |columns| == k
      invariant forall m :: 0 <= m < k ==> columns[m] == ColumnOf(rows, fields, m)
    {
      var values: seq<Cell> := [];
      var i := 0;
      while i < |rows|
        invariant 0 <= i <= |rows| && |values| == i
        invariant forall m :: 0 <= m < i ==> values[m] == rows[m][k]
      {
        values := values + [rows[i][k]];
        i := i + 1;
      }
      assert values == ColumnOf(rows, fields, k).values;
      columns := columns + [Column(fields[k], values)];
      k := k + 1;
    }
  }
}
