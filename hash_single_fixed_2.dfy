/**
 * The 2-byte instantiation of the fixed-width key (`hash_single_fixed_2.c`):
 * `CTYPE` is `int16`, so only Arrow arrays of decompression type 2 are read,
 * the key converts with `DatumGetInt16` / `Int16GetDatum`, hashes with
 * `hash64` and compares with `==`.
 */
module HashSingleFixed2 {
  import opened PgDatum
  import opened Columns
  import SingleFixedKey

  /** `KEY_BYTES`. */
  const KeyBytes: nat := 2

  /** `single_fixed_2_get_key`: an `int16` key and its validity. */
  function GetKey(c: Column, rows: nat, row: nat): (r: (int, bool))
    requires ColumnFits(c, rows) && row < rows && SingleFixedKey.Readable(KeyBytes, c)
    ensures -0x8000 <= r.0 < 0x8000
    ensures c.FixedColumn? ==> c.width == 2 && r.0 == c.values[row]
  {
    SingleFixedKey.GetKey(KeyBytes, c, rows, row)
  }

  /** `single_fixed_2_store_key`: `Int16GetDatum(key)` into the slot. */
  function StoreKey(key: int): (r: (int, Datum))
    requires -0x8000 <= key < 0x8000
    ensures r.0 == key && DatumGetInt(KeyBytes, r.1) == key
    ensures key < 0 ==> r.1 == 0x1_0000_0000_0000_0000 + key
  {
    SingleFixedKey.StoreKey(KeyBytes, key)
  }

  /** `DatumGetInt16(Int16GetDatum(k)) == k`, and distinct keys get distinct Datums. */
  lemma {:induction false} Int16RoundTrip(k: int, k': int)
    requires -0x8000 <= k < 0x8000 && -0x8000 <= k' < 0x8000
    ensures DatumGetInt(KeyBytes, IntGetDatum(KeyBytes, k)) == k
    ensures IntGetDatum(KeyBytes, k) == IntGetDatum(KeyBytes, k') <==> k == k'
  {
    DatumRoundTrip(KeyBytes, k);
    IntGetDatumInjective(KeyBytes, k, k');
  }
}
