/**
 * The key reader and key store shared by the single-column fixed-width
 * hashing strategies (`single_fixed_key_impl.c`). The C file is a template
 * over the key's C type `CTYPE`; here the type is given by its width in
 * bytes, and a key is the signed integer of that width.
 */
module SingleFixedKey {
  import opened PgDatum
  import opened Bitmap
  import opened Columns
  import opened Mixer

  /**
   * The columns `get_key` can read for a `width`-byte key: a scalar, or an
   * Arrow array whose decompression type is the key width. Any other
   * decompression type is unreachable in the C code.
   */
  predicate Readable(width: nat, c: Column)
  {
    c.ScalarColumn? || c.width == width
  }

  /**
   * `get_key`: a scalar column gives `DATUM_TO_CTYPE` of its Datum for every
   * row, valid unless the scalar is null; an Arrow array gives the row's
   * element and the row's validity bit.
   */
  function GetKey(width: nat, c: Column, rows: nat, row: nat): (r: (int, bool))
    requires IsKeyWidth(width) && ColumnFits(c, rows) && row < rows && Readable(width, c)
    ensures InSignedRange(width, r.0)
    ensures c.ScalarColumn? ==> r == (DatumGetInt(width, c.value), !c.isNull)
    ensures c.FixedColumn? ==> r == (c.values[row], ElementValid(c, rows, row))
  {
    match c
    case ScalarColumn(v, n) => (DatumGetInt(width, v), !n)
    case FixedColumn(_, values, _) => (values[row], ElementValid(c, rows, row))
  }

  /**
   * `store_key`: the storage slot receives `CTYPE_TO_DATUM(key)` and the key
   * is returned unchanged. Nothing is allocated, so the slot is all that
   * changes; reading the slot back with `DATUM_TO_CTYPE` gives the key.
   */
  function StoreKey(width: nat, key: int): (r: (int, Datum))
    requires IsKeyWidth(width) && InSignedRange(width, key)
    ensures r.0 == key
    ensures DatumGetInt(width, r.1) == key
  {
    DatumRoundTrip(width, key);
    (key, IntGetDatum(width, key))
  }

  /** `KEY_HASH`: `hash64` of the key converted to a 64-bit unsigned integer. */
  function KeyHash(width: nat, key: int): bv64
    requires IsKeyWidth(width) && InSignedRange(width, key)
  {
    Hash64(IntGetDatum(width, key) as bv64)
  }

  /**
   * A scalar key column holding a stored key reads back as that key, valid,
   * on every row.
   */
  lemma {:induction false} StoredKeyReadsBack(width: nat, key: int, rows: nat, row: nat)
    requires IsKeyWidth(width) && InSignedRange(width, key) && row < rows
    ensures GetKey(width, ScalarColumn(StoreKey(width, key).1, false), rows, row) == (key, true)
  {
    DatumRoundTrip(width, key);
  }

  /**
   * An Arrow element and a scalar column holding the element's Datum give
   * the same key, so a group does not depend on how its batch was
   * decompressed.
   */
  lemma {:induction false} ArrowAndScalarAgree(width: nat, c: Column, rows: nat, row: nat)
    requires IsKeyWidth(width) && c.FixedColumn? && c.width == width && ColumnFits(c, rows) && row < rows
    ensures GetKey(width, ScalarColumn(IntGetDatum(width, c.values[row]), false), rows, row).0
            == GetKey(width, c, rows, row).0
  {
    DatumRoundTrip(width, c.values[row]);
  }

  /**
   * Key equality (`KEY_EQUAL`, integer equality) is equality of the stored
   * Datums, and equal keys hash alike.
   */
  lemma {:induction false} KeyEqualMeansSameDatum(width: nat, a: int, b: int)
    requires IsKeyWidth(width) && InSignedRange(width, a) && InSignedRange(width, b)
    ensures a == b <==> StoreKey(width, a).1 == StoreKey(width, b).1
    ensures a == b ==> KeyHash(width, a) == KeyHash(width, b)
  {
    IntGetDatumInjective(width, a, b);
  }
}
