/**
 * Arrow validity and filter bitmaps: one bit per row, 64 rows per word, bit
 * `r % 64` of word `r / 64` describes row `r`. A missing bitmap (a NULL
 * pointer in the C code) means that every row is valid.
 */
module Bitmap {
  datatype Bitmap = Absent | Present(words: seq<bv64>)

  /** Number of 64-bit words needed for `rows` rows. */
  function WordsFor(rows: nat): nat
  {
    (rows + 63) / 64
  }

  /** The bitmap has a word for every one of the first `rows` rows. */
  predicate Covers(b: Bitmap, rows: nat)
  {
    b.Absent? || WordsFor(rows) <= |b.words|
  }

  /** Bit `j` of a word. */
  function BitAt(w: bv64, j: nat): bool
    requires j < 64
  {
    (w >> (j as bv8)) & 1 == 1
  }

  /** Row validity, as `arrow_row_is_valid` reads it. */
  function RowIsValid(b: Bitmap, row: nat): bool
    requires Covers(b, row + 1)
  {
    b.Absent? || BitAt(b.words[row / 64], row % 64)
  }

  /** Number of valid rows among the first `rows`, as `arrow_num_valid` counts them. */
  function NumValid(b: Bitmap, rows: nat): (n: nat)
    requires Covers(b, rows)
    ensures n <= rows
    ensures b.Absent? ==> n == rows
  {
    if rows == 0 then 0
    else NumValid(b, rows - 1) + (if RowIsValid(b, rows - 1) then 1 else 0)
  }

  lemma {:induction false} CoversPrefix(b: Bitmap, rows: nat, k: nat)
    requires Covers(b, rows) && k <= rows
    ensures Covers(b, k)
  {
  }

  /** A zero word has no bit set. */
  lemma {:induction false} BitOfZero(j: nat)
    requires j < 64
    ensures !BitAt(0, j)
  {
  }

  /** Setting bit `i` of a word changes bit `i` and no other. */
  lemma {:induction false} BitOfSet(w: bv64, i: nat, j: nat)
    requires i < 64 && j < 64
    ensures BitAt(w | (1 << (i as bv8)), j) == (j == i || BitAt(w, j))
  {
    SetBitRaw(w, i as bv8, j as bv8);
    if i != j {
      ShiftAmountInjective(i, j);
    }
  }

  lemma {:induction false} ShiftAmountInjective(i: nat, j: nat)
    requires i < 64 && j < 64 && i != j
    ensures (i as bv8) != (j as bv8)
  {
    ShiftAmountRoundTrip(i);
    ShiftAmountRoundTrip(j);
  }

  lemma {:induction false} ShiftAmountRoundTrip(i: nat)
    requires i < 64
    ensures (i as bv8) as int == i
  {
  }

  lemma {:induction false} SetBitRaw(w: bv64, i: bv8, j: bv8)
    requires i < 64 && j < 64
    ensures ((w | (1 << i)) >> j) & 1 == (if i == j then 1 else (w >> j) & 1)
  {
  }

  /** A bit that is set in `a` and clear in `b` makes `a & ~b` non-zero. */
  lemma {:induction false} AndNotWitness(a: bv64, b: bv64, j: nat)
    requires j < 64 && BitAt(a, j) && !BitAt(b, j)
    ensures a & !b != 0
  {
  }
  /** Row `row` of a bitmap that covers `rows` rows. */
  predicate RowBit(b: Bitmap, rows: nat, row: nat)
    requires Covers(b, rows) && row < rows
  {
    CoversPrefix(b, rows, row + 1);
    RowIsValid(b, row)
  }

  /** A row whose bit is clear leaves the count of valid rows short of `rows`. */
  lemma {:induction false} NumValidShort(b: Bitmap, rows: nat, row: nat)
    requires Covers(b, rows) && row < rows && !RowBit(b, rows, row)
    ensures NumValid(b, rows) < rows
  {
    if row < rows - 1 {
      CoversPrefix(b, rows, rows - 1);
      NumValidShort(b, rows - 1, row);
    }
  }
}
