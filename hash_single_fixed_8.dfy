/**
 * The 8-byte instantiation of the fixed-width key (`hash_single_fixed_8.c`):
 * the key type is `int64`, only Arrow arrays of decompression type 8 are
 * read, the key converts with `DatumGetInt64` / `Int64GetDatum`, hashes with
 * `hash64` and compares with `==`. The abbreviated key type is the full key
 * type, so abbreviation is the identity.
 */
module HashSingleFixed8 {
  import opened PgDatum
  import opened Columns
  import SingleFixedKey

  /** `KEY_BYTES`. */
  const KeyBytes: nat := 8

  /** `single_fixed_8_get_key`: an `int64` key and its validity. */
  function GetKey(c: Column, rows: nat, row: nat): (r: (int, bool))
    requires ColumnFits(c, rows) && row < rows && SingleFixedKey.Readable(KeyBytes, c)
    ensures -0x8000_0000_0000_0000 <= r.0 < 0x8000_0000_0000_0000
    ensures c.FixedColumn? ==> c.width == 8 && r.0 == c.values[row]
  {
    SingleFixedKey.GetKey(KeyBytes, c, rows, row)
  }

  /** `single_fixed_8_store_key`: `Int64GetDatum(key)` into the slot. */
  function StoreKey(key: int): (r: (int, Datum))
    requires -0x8000_0000_0000_0000 <= key < 0x8000_0000_0000_0000
    ensures r.0 == key && DatumGetInt(KeyBytes, r.1) == key
  {
    SingleFixedKey.StoreKey(KeyBytes, key)
  }

  /** `ABBREV_KEY_TYPE` is `FULL_KEY_TYPE`: the abbreviated key is the key. */
  function Abbreviate(key: int): int
  {
    key
  }

  /**
   * `DatumGetInt64(Int64GetDatum(k)) == k`; the Datum of a non-negative key
   * is the key itself; and abbreviated keys are equal exactly when the keys
   * are.
   */
  lemma {:induction false} Int64RoundTrip(k: int, k': int)
    requires -0x8000_0000_0000_0000 <= k < 0x8000_0000_0000_0000
    requires -0x8000_0000_0000_0000 <= k' < 0x8000_0000_0000_0000
    ensures DatumGetInt(KeyBytes, IntGetDatum(KeyBytes, k)) == k
    ensures k >= 0 ==> IntGetDatum(KeyBytes, k) == k
    ensures Abbreviate(k) == Abbreviate(k') <==> k == k'
  {
    DatumRoundTrip(KeyBytes, k);
  }
}
