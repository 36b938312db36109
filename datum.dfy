/**
 * PostgreSQL `Datum` values (a 64-bit machine word) and the by-value integer
 * conversions `Int16GetDatum`, `Int32GetDatum`, `Int64GetDatum` and their
 * `DatumGetInt*` inverses, for the key widths 2, 4 and 8 bytes.
 */
module PgDatum {
  const TwoTo64: int := 0x1_0000_0000_0000_0000

  type Datum = x: int | 0 <= x < TwoTo64

  /** The byte widths of the fixed-size by-value key types. */
  predicate IsKeyWidth(width: nat)
  {
    width == 2 || width == 4 || width == 8
  }

  /** 2^(8 * width): the number of bit patterns of a `width`-byte integer. */
  function Modulus(width: nat): (m: int)
    requires IsKeyWidth(width)
    ensures m > 0
  {
    if width == 2 then 0x1_0000 else if width == 4 then 0x1_0000_0000 else TwoTo64
  }

  /** The signed C integer of `width` bytes can hold `k`. */
  predicate InSignedRange(width: nat, k: int)
    requires IsKeyWidth(width)
  {
    -(Modulus(width) / 2) <= k < Modulus(width) / 2
  }

  /**
   * `IntNGetDatum(k)`: the cast of a signed integer to the unsigned 64-bit
   * Datum, which sign-extends.
   */
  function IntGetDatum(width: nat, k: int): (d: Datum)
    requires IsKeyWidth(width) && InSignedRange(width, k)
    ensures k >= 0 ==> d == k
    ensures k < 0 ==> d == TwoTo64 + k
  {
    k % TwoTo64
  }

  /** `DatumGetIntN(d)`: truncation to the low `width` bytes, read as signed. */
  function DatumGetInt(width: nat, d: Datum): (k: int)
    requires IsKeyWidth(width)
    ensures InSignedRange(width, k)
  {
    var low := d % Modulus(width);
    if low >= Modulus(width) / 2 then low - Modulus(width) else low
  }

  /** The bit pattern of a `width`-byte integer, zero-extended to 64 bits (a `memcpy` into a zeroed Datum). */
  function ZeroExtend(width: nat, k: int): (d: Datum)
    requires IsKeyWidth(width) && InSignedRange(width, k)
    ensures d < Modulus(width)
  {
    k % Modulus(width)
  }

  /** `DatumGetIntN(IntNGetDatum(k)) == k`. */
  lemma {:induction false} DatumRoundTrip(width: nat, k: int)
    requires IsKeyWidth(width) && InSignedRange(width, k)
    ensures DatumGetInt(width, IntGetDatum(width, k)) == k
  {
    var d := IntGetDatum(width, k);
    if k < 0 {
      assert d == k + TwoTo64;
      if width == 2 {
        assert d % 0x1_0000 == k + 0x1_0000;
      } else if width == 4 {
        assert d % 0x1_0000_0000 == k + 0x1_0000_0000;
      }
    }
  }

  /** Datums of distinct integers of one width are distinct. */
  lemma {:induction false} IntGetDatumInjective(width: nat, a: int, b: int)
    requires IsKeyWidth(width) && InSignedRange(width, a) && InSignedRange(width, b)
    ensures IntGetDatum(width, a) == IntGetDatum(width, b) <==> a == b
  {
    if IntGetDatum(width, a) == IntGetDatum(width, b) {
      DatumRoundTrip(width, a);
      DatumRoundTrip(width, b);
    }
  }

  /** Reading a zero-extended bit pattern back as a signed integer gives the integer. */
  lemma {:induction false} ZeroExtendRoundTrip(width: nat, k: int)
    requires IsKeyWidth(width) && InSignedRange(width, k)
    ensures DatumGetInt(width, ZeroExtend(width, k)) == k
  {
  }
}
