/**
 * The per-batch column view that the fixed-width grouping code reads
 * (`CompressedColumnValues` inside `DecompressBatchState`). A column is
 * either one scalar Datum shared by every row of the batch, or a
 * fixed-width Arrow array whose decompression type is its element width in
 * bytes. Elements of an Arrow array are kept as the signed integers they
 * encode; the validity bitmap follows the Arrow convention of `Bitmap`.
 */
module Columns {
  import opened Bitmap
  import opened PgDatum

  datatype Column =
    | ScalarColumn(value: Datum, isNull: bool)
    | FixedColumn(width: nat, values: seq<int>, validity: Bitmap)

  /** A batch: its row count, the vectorised-qual result and its columns. */
  datatype Batch = Batch(rows: nat, filter: Bitmap, columns: seq<Column>)

  /** The column can serve `rows` rows: buffers long enough, values in range. */
  predicate ColumnFits(c: Column, rows: nat)
  {
    match c
    case ScalarColumn(_, _) => true
    case FixedColumn(w, values, validity) =>
      && IsKeyWidth(w)
      && rows <= |values|
      && Covers(validity, rows)
      && forall i :: 0 <= i < |values| ==> InSignedRange(w, values[i])
  }

  /** Every column fits and the filter bitmap covers every row. */
  predicate BatchFits(b: Batch)
  {
    && Covers(b.filter, b.rows)
    && forall i :: 0 <= i < |b.columns| ==> ColumnFits(b.columns[i], b.rows)
  }

  /** Row `row` passes the batch filter (`arrow_row_is_valid(filter, row)`). */
  predicate Passes(b: Batch, row: nat)
    requires Covers(b.filter, b.rows) && row < b.rows
  {
    CoversPrefix(b.filter, b.rows, row + 1);
    RowIsValid(b.filter, row)
  }

  /** The validity bit of an Arrow column at `row`. */
  predicate ElementValid(c: Column, rows: nat, row: nat)
    requires c.FixedColumn? && ColumnFits(c, rows) && row < rows
  {
    CoversPrefix(c.validity, rows, row + 1);
    RowIsValid(c.validity, row)
  }
}
