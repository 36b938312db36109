/**
 * The single-text-column hashing strategy (`hash_single_text.c`): a text
 * key is fingerprinted with UMASH and the table is keyed by part of the
 * fingerprint; the key's bytes are copied into a `text` value under the
 * key's index for output. A dictionary-encoded batch can be hashed through
 * its dictionary: the dictionary entries that passing rows use are hashed
 * as a plain text column, the null key is added separately, and each row
 * then reads its key index from its entry.
 */
module HashSingleText {
  import opened Wrappers
  import opened Bitmap
  import opened KeyIndex
  import opened Aggregate
  import GroupingPolicyHash

  // ---------------------------------------------------------------------
  // Fingerprints and table keys

  /** `struct umash_fp`: the two 64-bit lanes of a UMASH fingerprint. */
  datatype Fingerprint = Fingerprint(lane0: bv64, lane1: bv64)

  /**
   * `umash_fprint` with the policy's parameters and seed -1. UMASH is not
   * part of this model, so every operation takes it as a parameter.
   */
  type Fprint = seq<bv8> -> Fingerprint

  /** `struct hash_table_key`: 32 bits of the first lane and the second lane. */
  datatype TableKey = TableKey(hash: bv32, rest: bv64)

  /** The table key of a fingerprint: the first lane cut to its low 32 bits. */
  function TableKeyOf(f: Fingerprint): TableKey
  {
    TableKey(LowHalf(f.lane0), f.lane1)
  }

  /** `hash[0] & ~(uint32) 0`, stored in a 32-bit field. */
  function LowHalf(a: bv64): bv32
  {
    (a & 0xFFFF_FFFF) as bv32
  }

  /**
   * `KEY_EQUAL`: two fingerprints give equal table keys exactly when their
   * second lanes agree and their first lanes agree in the low 32 bits.
   */
  lemma {:induction false} TableKeyEqual(f: Fingerprint, g: Fingerprint)
    ensures TableKeyOf(f) == TableKeyOf(g)
            <==> (f.lane0 & 0xFFFF_FFFF == g.lane0 & 0xFFFF_FFFF && f.lane1 == g.lane1)
  {
    LowHalfEqual(f.lane0, g.lane0);
  }

  lemma {:induction false} LowHalfEqual(a: bv64, b: bv64)
    ensures LowHalf(a) == LowHalf(b) <==> a & 0xFFFF_FFFF == b & 0xFFFF_FFFF
  {
  }

  /** The table key of a byte string. */
  function KeyOf(fprint: Fprint, bytes: seq<bv8>): TableKey
  {
    TableKeyOf(fprint(bytes))
  }

  // ---------------------------------------------------------------------
  // Text values and columns

  /** The varlena header (`VARHDRSZ`). */
  const VarHdrSz: nat := 4

  /** A `text` datum: its total size (`VARSIZE`) and the bytes after the header. */
  datatype Varlena = Varlena(size: nat, body: seq<bv8>)

  predicate VarlenaFits(v: Varlena)
  {
    VarHdrSz <= v.size <= |v.body| + VarHdrSz
  }

  /** `VARDATA_ANY` cut to `VARSIZE_ANY_EXHDR` bytes. */
  function Payload(v: Varlena): (bytes: seq<bv8>)
    requires VarlenaFits(v)
    ensures |bytes| + VarHdrSz == v.size
  {
    v.body[..v.size - VarHdrSz]
  }

  /** The offsets (`buffers[1]`) and the data (`buffers[2]`) of an Arrow text array. */
  datatype Spans = Spans(offsets: seq<nat>, data: seq<bv8>)

  /** The spans describe `n` values: `n + 1` non-decreasing offsets into the data. */
  predicate SpansFit(s: Spans, n: nat)
  {
    && n < |s.offsets|
    && (forall i, j :: 0 <= i <= j <= n ==> s.offsets[i] <= s.offsets[j])
    && s.offsets[n] <= |s.data|
  }

  /** `get_bytes_view`: value `i` runs from its offset to the next one. */
  function BytesView(s: Spans, n: nat, i: nat): (bytes: seq<bv8>)
    requires SpansFit(s, n) && i < n
    ensures |bytes| == s.offsets[i + 1] - s.offsets[i]
    ensures forall k :: 0 <= k < |bytes| ==> bytes[k] == s.data[s.offsets[i] + k]
  {
    s.data[s.offsets[i]..s.offsets[i + 1]]
  }

  /**
   * The key column of a batch: one text datum for every row, an Arrow text
   * array, or a dictionary-encoded one (entry spans, entry count, one entry
   * index per row, and the array's `null_count`).
   */
  datatype TextColumn =
    | ScalarText(value: Varlena, isNull: bool)
    | ArrowText(validity: Bitmap, spans: Spans)
    | ArrowTextDict(validity: Bitmap, spans: Spans, dictLength: nat, indices: seq<int>, nullCount: nat)

  predicate ColumnFits(c: TextColumn, rows: nat)
  {
    match c
    case ScalarText(value, _) => VarlenaFits(value)
    case ArrowText(validity, spans) => Covers(validity, rows) && SpansFit(spans, rows)
    case ArrowTextDict(validity, spans, dictLength, indices, nullCount) =>
      && Covers(validity, rows) && SpansFit(spans, dictLength)
      && rows <= |indices| && (forall r :: 0 <= r < rows ==> 0 <= indices[r] < dictLength)
      && nullCount == rows - NumValid(validity, rows)
  }

  /** A batch as this strategy sees it: rows, the vectorised-qual result, the key column. */
  datatype TextBatch = TextBatch(rows: nat, filter: Bitmap, key: TextColumn)

  predicate BatchFits(b: TextBatch)
  {
    Covers(b.filter, b.rows) && ColumnFits(b.key, b.rows)
  }

  /** The key of one row: its bytes and whether it is not null. */
  datatype TextKey = TextKey(bytes: seq<bv8>, valid: bool)

  /**
   * `single_text_get_key`, without the fingerprint: a scalar key is the
   * datum's payload; an Arrow row is its span; a dictionary row is the span
   * of the entry its index names. Validity is always the row's own bit.
   */
  function GetKey(c: TextColumn, rows: nat, row: nat): TextKey
    requires ColumnFits(c, rows) && row < rows
  {
    match c
    case ScalarText(value, isNull) => TextKey(Payload(value), !isNull)
    case ArrowText(validity, spans) => TextKey(BytesView(spans, rows, row), RowBit(validity, rows, row))
    case ArrowTextDict(validity, spans, n, indices, _) =>
      TextKey(BytesView(spans, n, indices[row]), RowBit(validity, rows, row))
  }

  /** The table key `single_text_get_key` computes for a row. */
  function RowTableKey(fprint: Fprint, c: TextColumn, rows: nat, row: nat): TableKey
    requires ColumnFits(c, rows) && row < rows
  {
    KeyOf(fprint, GetKey(c, rows, row).bytes)
  }

  /**
   * The dictionary of a dictionary-encoded column seen as a plain text
   * column without a validity bitmap, as the dictionary pass hashes it.
   */
  function DictionaryAsText(c: TextColumn): (d: TextColumn)
    requires c.ArrowTextDict?
    ensures d.ArrowText? && d.validity.Absent? && d.spans == c.spans
  {
    ArrowText(Absent, c.spans)
  }

  /**
   * A dictionary row has the bytes of its entry, read from the dictionary as
   * a text column, and the validity of the row itself.
   */
  lemma {:induction false} DictionaryRowIsEntry(c: TextColumn, rows: nat, row: nat)
    requires c.ArrowTextDict? && ColumnFits(c, rows) && row < rows
    ensures ColumnFits(DictionaryAsText(c), c.dictLength)
    ensures GetKey(c, rows, row)
            == TextKey(GetKey(DictionaryAsText(c), c.dictLength, c.indices[row]).bytes,
                       RowBit(c.validity, rows, row))
  {
  }

  /**
   * `single_text_store_output_key`: the key's bytes are copied into a new
   * `text` datum of `len + VARHDRSZ` bytes, stored under the new index; the
   * table key goes into the table unchanged.
   */
  function StoreOutputKey(outputKeys: map<nat, Option<Varlena>>, index: nat, key: seq<bv8>, tk: TableKey)
    : (r: (map<nat, Option<Varlena>>, TableKey))
    ensures r.1 == tk
    ensures r.0.Keys == outputKeys.Keys + {index}
    ensures forall i :: i in outputKeys && i != index ==> r.0[i] == outputKeys[i]
    ensures r.0[index].Some? && VarlenaFits(r.0[index].value)
  {
    (outputKeys[index := Some(Varlena(|key| + VarHdrSz, key))], tk)
  }

  /**
   * A stored output key, read back as a scalar key column, gives the same
   * bytes and so the same table key: emitting the group's key and hashing
   * it again lands in the same group.
   */
  lemma {:induction false} StoredKeyReadsBack(fprint: Fprint, outputKeys: map<nat, Option<Varlena>>,
                                              index: nat, key: seq<bv8>)
    ensures var stored := StoreOutputKey(outputKeys, index, key, KeyOf(fprint, key)).0[index].value;
            && ColumnFits(ScalarText(stored, false), 1)
            && GetKey(ScalarText(stored, false), 1, 0) == TextKey(key, true)
            && RowTableKey(fprint, ScalarText(stored, false), 1, 0) == KeyOf(fprint, key)
  {
    var stored := Varlena(|key| + VarHdrSz, key);
    assert Payload(stored) == key;
  }

  // ---------------------------------------------------------------------
  // Which dictionary entries a batch uses

  /** Row `r` passes `filter`, is valid in `validity` and points at dictionary entry `d`. */
  predicate RowUses(filter: Bitmap, validity: Bitmap, rows: nat, indices: seq<int>, r: nat, d: int)
    requires Covers(filter, rows) && Covers(validity, rows) && r < rows <= |indices|
  {
    RowBit(filter, rows, r) && RowBit(validity, rows, r) && indices[r] == d
  }

  /** Among the first `n` rows, some row uses dictionary entry `d`. */
  predicate EntryUsed(filter: Bitmap, validity: Bitmap, rows: nat, indices: seq<int>, n: nat, d: int)
    requires Covers(filter, rows) && Covers(validity, rows) && n <= rows <= |indices|
  {
    n > 0
    && (EntryUsed(filter, validity, rows, indices, n - 1, d) || RowUses(filter, validity, rows, indices, n - 1, d))
  }

  /** `EntryUsed` holds exactly when some row is a witness. */
  lemma {:induction false} EntryUsedMeans(filter: Bitmap, validity: Bitmap, rows: nat, indices: seq<int>, n: nat, d: int)
    requires Covers(filter, rows) && Covers(validity, rows) && n <= rows <= |indices|
    ensures EntryUsed(filter, validity, rows, indices, n, d)
            <==> exists r :: 0 <= r < n && RowUses(filter, validity, rows, indices, r, d)
  {
    if EntryUsed(filter, validity, rows, indices, n, d) {
      var r := EntryUsedWitness(filter, validity, rows, indices, n, d);
    }
    forall r | 0 <= r < n && RowUses(filter, validity, rows, indices, r, d)
      ensures EntryUsed(filter, validity, rows, indices, n, d)
    {
      EntryUsedByRow(filter, validity, rows, indices, n, d, r);
    }
  }

  /** A row among the first `n` that uses the entry. */
  lemma {:induction false} EntryUsedWitness(filter: Bitmap, validity: Bitmap, rows: nat, indices: seq<int>, n: nat, d: int)
    returns (r: nat)
    requires Covers(filter, rows) && Covers(validity, rows) && n <= rows <= |indices|
    requires EntryUsed(filter, validity, rows, indices, n, d)
    ensures r < n && RowUses(filter, validity, rows, indices, r, d)
  {
    if RowUses(filter, validity, rows, indices, n - 1, d) {
      r := n - 1;
    } else {
      r := EntryUsedWitness(filter, validity, rows, indices, n - 1, d);
    }
  }

  /** Any row among the first `n` that uses the entry makes it used. */
  lemma {:induction false} EntryUsedByRow(filter: Bitmap, validity: Bitmap, rows: nat, indices: seq<int>, n: nat, d: int, r: nat)
    requires Covers(filter, rows) && Covers(validity, rows) && n <= rows <= |indices|
    requires r < n && RowUses(filter, validity, rows, indices, r, d)
    ensures EntryUsed(filter, validity, rows, indices, n, d)
  {
    if r < n - 1 {
      EntryUsedByRow(filter, validity, rows, indices, n - 1, d, r);
    }
  }

  /** Rows `[0, n)` start the block of 64 rows that holds row `n`. */
  function BlockEnd(outer: nat, n: nat): nat
  {
    if outer * 64 < n then outer * 64 else n
  }

  /** The rows of word `outer` are `outer * 64` up to the block end. */
  lemma {:induction false} WordRows(outer: nat, n: nat)
    requires outer < WordsFor(n)
    ensures BlockEnd(outer, n) == outer * 64
    ensures outer * 64 + (if outer < n / 64 then 64 else n % 64) == BlockEnd(outer + 1, n)
  {
  }

  lemma {:induction false} LastBlockEnd(n: nat)
    ensures BlockEnd(WordsFor(n), n) == n
  {
  }

  /** Row `outer * 64 + inner` is bit `inner` of word `outer`. */
  lemma {:induction false} RowOfWord(b: Bitmap, rows: nat, outer: nat, inner: nat)
    requires b.Present? && Covers(b, rows) && inner < 64 && outer * 64 + inner < rows
    ensures RowBit(b, rows, outer * 64 + inner) == BitAt(b.words[outer], inner)
  {
    var row := outer * 64 + inner;
    assert row / 64 == outer && row % 64 == inner;
  }

  /** The bits the marking loop tests for a row are the row's filter and validity bits. */
  lemma {:induction false} PassOfWord(filter: seq<bv64>, validity: Bitmap, rows: nat, outer: nat, inner: nat)
    requires Covers(Present(filter), rows) && Covers(validity, rows) && inner < 64 && outer * 64 + inner < rows
    ensures (BitAt(filter[outer], inner) && (validity.Absent? || BitAt(validity.words[outer], inner)))
            == (RowBit(Present(filter), rows, outer * 64 + inner) && RowBit(validity, rows, outer * 64 + inner))
  {
    RowOfWord(Present(filter), rows, outer, inner);
    if validity.Present? {
      RowOfWord(validity, rows, outer, inner);
    }
  }

  /**
   * The dictionary filter of `single_text_prepare_for_batch`: a flag per
   * entry, set by every row whose filter bit and validity bit are set, then
   * packed 64 flags to a word. Passing `Absent` as `validity` gives the
   * filter the source computes, which does not look at validity.
   */
  method DictionaryFilter(filter: seq<bv64>, validity: Bitmap, rows: nat, indices: seq<int>, dictRows: nat)
    returns (dictFilter: seq<bv64>)
    requires Covers(Present(filter), rows) && Covers(validity, rows) && rows <= |indices|
    requires forall r :: 0 <= r < rows ==> 0 <= indices[r] < dictRows
    ensures |dictFilter| == WordsFor(dictRows)
    ensures forall d :: 0 <= d < dictRows ==>
              RowBit(Present(dictFilter), dictRows, d) == EntryUsed(Present(filter), validity, rows, indices, rows, d)
  {
    var used := MarkUsedEntries(filter, validity, rows, indices, dictRows);
    dictFilter := PackFlags(used);
  }

  /**
   * The flags `tmp` holds after the first `n` rows: each row ORs its "passes
   * and is valid" bit into the flag of the entry it points at.
   */
  function UsedFlags(filter: Bitmap, validity: Bitmap, rows: nat, indices: seq<int>, dictRows: nat, n: nat)
    : (flags: seq<bool>)
    requires Covers(filter, rows) && Covers(validity, rows) && n <= rows <= |indices|
    requires forall r :: 0 <= r < rows ==> 0 <= indices[r] < dictRows
    ensures |flags| == dictRows
  {
    if n == 0 then seq(dictRows, _ => false)
    else
      var prev := UsedFlags(filter, validity, rows, indices, dictRows, n - 1);
      var index := indices[n - 1];
      prev[index := prev[index] || (RowBit(filter, rows, n - 1) && RowBit(validity, rows, n - 1))]
  }

  /** Row `n` ORs its bit into the flag of entry `indices[n]`. */
  lemma {:induction false} UsedFlagsNext(filter: Bitmap, validity: Bitmap, rows: nat, indices: seq<int>, dictRows: nat, n: nat)
    requires Covers(filter, rows) && Covers(validity, rows) && n < rows <= |indices|
    requires forall r :: 0 <= r < rows ==> 0 <= indices[r] < dictRows
    ensures var prev := UsedFlags(filter, validity, rows, indices, dictRows, n);
            UsedFlags(filter, validity, rows, indices, dictRows, n + 1)
            == prev[indices[n] := prev[indices[n]] || (RowBit(filter, rows, n) && RowBit(validity, rows, n))]
  {
  }

  /** The flag of entry `d` is set exactly when some row among the first `n` uses the entry. */
  lemma {:induction false} UsedFlagsMeans(filter: Bitmap, validity: Bitmap, rows: nat, indices: seq<int>, dictRows: nat,
                                          n: nat, d: nat)
    requires Covers(filter, rows) && Covers(validity, rows) && n <= rows <= |indices|
    requires forall r :: 0 <= r < rows ==> 0 <= indices[r] < dictRows
    requires d < dictRows
    ensures UsedFlags(filter, validity, rows, indices, dictRows, n)[d] == EntryUsed(filter, validity, rows, indices, n, d)
  {
    if n > 0 {
      UsedFlagsMeans(filter, validity, rows, indices, dictRows, n - 1, d);
    }
  }

  /** The first loop nest: one flag per dictionary entry, `tmp` in the source. */
  method MarkUsedEntries(filter: seq<bv64>, validity: Bitmap, rows: nat, indices: seq<int>, dictRows: nat)
    returns (used: seq<bool>)
    requires Covers(Present(filter), rows) && Covers(validity, rows) && rows <= |indices|
    requires forall r :: 0 <= r < rows ==> 0 <= indices[r] < dictRows
    ensures |used| == dictRows
    ensures forall d :: 0 <= d < dictRows ==> used[d] == EntryUsed(Present(filter), validity, rows, indices, rows, d)
  {
    var tmp := new bool[dictRows](_ => false);
    var outer := 0;
    while outer < WordsFor(rows)
      invariant outer <= WordsFor(rows)
      invariant tmp[..] == UsedFlags(Present(filter), validity, rows, indices, dictRows, BlockEnd(outer, rows))
    {
      WordRows(outer, rows);
      MarkWord(tmp, filter, validity, rows, indices, outer);
      outer := outer + 1;
    }
    LastBlockEnd(rows);
    used := tmp[..];
    forall d | 0 <= d < dictRows
      ensures used[d] == EntryUsed(Present(filter), validity, rows, indices, rows, d)
    {
      UsedFlagsMeans(Present(filter), validity, rows, indices, dictRows, rows, d);
    }
  }

  /** `INNER_LOOP` of the first nest: the rows of filter word `outer`. */
  method MarkWord(tmp: array<bool>, filter: seq<bv64>, validity: Bitmap, rows: nat, indices: seq<int>, outer: nat)
    requires Covers(Present(filter), rows) && Covers(validity, rows) && rows <= |indices|
    requires forall r :: 0 <= r < rows ==> 0 <= indices[r] < tmp.Length
    requires outer < WordsFor(rows)
    requires tmp[..] == UsedFlags(Present(filter), validity, rows, indices, tmp.Length, BlockEnd(outer, rows))
    modifies tmp
    ensures tmp[..] == UsedFlags(Present(filter), validity, rows, indices, tmp.Length, BlockEnd(outer + 1, rows))
  {
    WordRows(outer, rows);
    var innerMax := if outer < rows / 64 then 64 else rows % 64;
    var last := outer * 64 + innerMax;
    assert last == BlockEnd(outer + 1, rows) <= rows;
    var inner := 0;
    while inner < innerMax
      invariant inner <= innerMax
      invariant tmp[..] == UsedFlags(Present(filter), validity, rows, indices, tmp.Length, outer * 64 + inner)
    {
      var row := outer * 64 + inner;
      var pass := RowPasses(filter, validity, rows, outer, inner);
      var index := indices[row];
      ghost var prev := tmp[..];
      UsedFlagsNext(Present(filter), validity, rows, indices, tmp.Length, row);
      tmp[index] := tmp[index] || pass;
      assert tmp[..] == prev[index := prev[index] || pass];
      inner := inner + 1;
    }
  }

  /**
   * The bit test of `INNER_LOOP`: bit `inner` of filter word `outer`. The
   * corrected filter also tests the validity word; the source's passes
   * `Absent`, which every row satisfies.
   */
  method RowPasses(filter: seq<bv64>, validity: Bitmap, rows: nat, outer: nat, inner: nat) returns (pass: bool)
    requires Covers(Present(filter), rows) && Covers(validity, rows) && inner < 64 && outer * 64 + inner < rows
    ensures pass == (RowBit(Present(filter), rows, outer * 64 + inner) && RowBit(validity, rows, outer * 64 + inner))
  {
    var word := filter[outer];
    var valid := validity.Absent? || BitAt(validity.words[outer], inner);
    pass := BitAt(word, inner) && valid;
    PassOfWord(filter, validity, rows, outer, inner);
  }

  /** The second loop nest: flags packed 64 to a word, bit `d % 64` of word `d / 64`. */
  method PackFlags(flags: seq<bool>) returns (words: seq<bv64>)
    ensures |words| == WordsFor(|flags|)
    ensures forall d :: 0 <= d < |flags| ==> RowBit(Present(words), |flags|, d) == flags[d]
  {
    var n := |flags|;
    var packed := new bv64[WordsFor(n)](_ => 0);
    var outer := 0;
    while outer < WordsFor(n)
      invariant outer <= WordsFor(n)
      invariant forall d :: 0 <= d < n && d / 64 < outer ==> BitAt(packed[d / 64], d % 64) == flags[d]
    {
      WordRows(outer, n);
      var innerMax := if outer < n / 64 then 64 else n % 64;
      var word := PackWord(flags, outer * 64, innerMax);
      packed[outer] := word;
      forall d | 0 <= d < n && d / 64 == outer
        ensures BitAt(packed[d / 64], d % 64) == flags[d]
      {
        assert outer * 64 + d % 64 == d;
      }
      outer := outer + 1;
    }
    words := packed[..];
    forall d | 0 <= d < n
      ensures RowBit(Present(words), n, d) == flags[d]
    {
      assert d / 64 < WordsFor(n);
    }
  }

  /** `INNER_LOOP` of the second nest: flags `start .. start + count - 1` as bits `0 .. count - 1`. */
  method PackWord(flags: seq<bool>, start: nat, count: nat) returns (word: bv64)
    requires count <= 64 && start + count <= |flags|
    ensures forall j :: 0 <= j < count ==> BitAt(word, j) == flags[start + j]
    ensures forall j :: count <= j < 64 ==> !BitAt(word, j)
  {
    word := 0;
    forall j | 0 <= j < 64
      ensures !BitAt(word, j)
    {
      BitOfZero(j);
    }
    var inner := 0;
    while inner < count
      invariant inner <= count
      invariant forall j :: 0 <= j < inner ==> BitAt(word, j) == flags[start + j]
      invariant forall j :: inner <= j < 64 ==> !BitAt(word, j)
    {
      if flags[start + inner] {
        forall j | 0 <= j < 64
          ensures BitAt(word | (1 << (inner as bv8)), j) == (j == inner || BitAt(word, j))
        {
          BitOfSet(word, inner, j);
        }
        var before := word;
        word := word | (1 << (inner as bv8));
        assert forall j :: 0 <= j < 64 ==> BitAt(word, j) == (j == inner || BitAt(before, j));
      }
      assert forall j :: 0 <= j <= inner ==> BitAt(word, j) == flags[start + j];
      inner := inner + 1;
    }
  }

  // ---------------------------------------------------------------------
  // The null key of a dictionary batch

  /** Some of the first `n` words has a row that passes the filter and is null. */
  predicate AnyFilteredNull(filter: seq<bv64>, validity: seq<bv64>, n: nat)
    requires n <= |filter| && n <= |validity|
  {
    n > 0 && (AnyFilteredNull(filter, validity, n - 1) || filter[n - 1] & !validity[n - 1] != 0)
  }

  /**
   * Whether the batch has a null key that passes the filter, as decided
   * from the array's `null_count` and, under a filter, word by word.
   */
  predicate HaveNullKey(filter: Bitmap, validity: Bitmap, rows: nat, nullCount: nat)
    requires Covers(filter, rows) && Covers(validity, rows)
    requires nullCount > 0 ==> validity.Present?
  {
    && nullCount > 0
    && (filter.Present? ==> AnyFilteredNull(filter.words, validity.words, WordsFor(rows)))
  }

  /** The loop that computes `have_null_key`. */
  method DetectNullKey(filter: Bitmap, validity: Bitmap, rows: nat, nullCount: nat) returns (have: bool)
    requires Covers(filter, rows) && Covers(validity, rows)
    requires nullCount > 0 ==> validity.Present?
    ensures have == HaveNullKey(filter, validity, rows, nullCount)
  {
    have := false;
    if filter.Present? {
      if nullCount > 0 {
        var i := 0;
        while i < WordsFor(rows)
          invariant i <= WordsFor(rows)
          invariant have == AnyFilteredNull(filter.words, validity.words, i)
        {
          have := have || filter.words[i] & !validity.words[i] != 0;
          i := i + 1;
        }
      }
    } else {
      if nullCount > 0 {
        have := true;
      }
    }
  }

  /** A word with a passing null row makes every longer prefix report one. */
  lemma {:induction false} AnyFilteredNullFrom(filter: seq<bv64>, validity: seq<bv64>, i: nat, n: nat)
    requires i < n <= |filter| && n <= |validity| && filter[i] & !validity[i] != 0
    ensures AnyFilteredNull(filter, validity, n)
  {
    if i < n - 1 {
      AnyFilteredNullFrom(filter, validity, i, n - 1);
    }
  }

  /** A null row that passes the filter is always detected. */
  lemma {:induction false} PassingNullDetected(b: TextBatch, r: nat)
    requires BatchFits(b) && b.key.ArrowTextDict? && r < b.rows
    requires RowBit(b.filter, b.rows, r) && !RowBit(b.key.validity, b.rows, r)
    ensures b.key.nullCount > 0 ==> b.key.validity.Present?
    ensures HaveNullKey(b.filter, b.key.validity, b.rows, b.key.nullCount)
  {
    var c := b.key;
    NumValidShort(c.validity, b.rows, r);
    if b.filter.Present? {
      CoversPrefix(b.filter, b.rows, r + 1);
      CoversPrefix(c.validity, b.rows, r + 1);
      AndNotWitness(b.filter.words[r / 64], c.validity.words[r / 64], r % 64);
      AnyFilteredNullFrom(b.filter.words, c.validity.words, r / 64, WordsFor(b.rows));
    }
  }
  // ---------------------------------------------------------------------
  // Policy state and the dictionary pass

  /**
   * The policy fields this strategy reads and writes: the table,
   * `last_used_key_index`, `null_key_index`, the stored output keys (`None`
   * for the null key), `num_agg_state_rows` and the aggregate-state arenas,
   * `key_index_for_dict` (its length is `num_key_index_for_dict`) and
   * `use_key_index_for_dict`.
   */
  datatype TextState = TextState(
    table: map<TableKey, nat>,
    lastUsed: nat,
    nullKeyIndex: nat,
    outputKeys: map<nat, Option<Varlena>>,
    numAggStateRows: nat,
    perAggStates: seq<seq<AggState>>,
    keyIndexForDict: seq<nat>,
    useKeyIndexForDict: bool)

  /**
   * Every key in the table has bytes stored under its index, and those
   * bytes fingerprint back to the key.
   */
  ghost predicate OutputKeysOk(st: TextState, fprint: Fprint)
  {
    forall k :: k in st.table ==>
      && st.table[k] in st.outputKeys && st.outputKeys[st.table[k]].Some?
      && VarlenaFits(st.outputKeys[st.table[k]].value)
      && KeyOf(fprint, Payload(st.outputKeys[st.table[k]].value)) == k
  }

  /** The null key, once it has an index, has one no table key has, and no stored bytes. */
  ghost predicate NullKeyOk(st: TextState)
  {
    st.nullKeyIndex != 0 ==>
      && st.nullKeyIndex <= st.lastUsed
      && (forall k :: k in st.table ==> st.table[k] != st.nullKeyIndex)
      && st.nullKeyIndex in st.outputKeys && st.outputKeys[st.nullKeyIndex].None?
  }

  /** The output keys and the null key agree with the table. */
  ghost predicate KeysConsistent(st: TextState, fprint: Fprint)
  {
    OutputKeysOk(st, fprint) && NullKeyOk(st)
  }

  /**
   * The state between batches: the table hands out the indices
   * `1 .. last_used_key_index` without repetition, the null key and the
   * output keys are consistent, the arenas have a slot for every used index
   * and every used slot has been initialised.
   */
  ghost predicate TextStateOk(st: TextState, fprint: Fprint, numDefs: nat)
  {
    && Dense(st.table, 1, st.lastUsed + 1)
    && NullKeyOk(st)
    && OutputKeysOk(st, fprint)
    && GroupingPolicyHash.MaxBatchRows <= st.numAggStateRows
    && st.lastUsed < st.numAggStateRows
    && GroupingPolicyHash.ArenasOf(st.perAggStates, numDefs, st.numAggStateRows)
    && forall a, s :: 0 <= a < numDefs && 1 <= s <= st.lastUsed ==> st.perAggStates[a][s].initialized
  }

  /** The two states differ at most in the table, the last used index and the output keys. */
  predicate SameButKeys(st: TextState, r: TextState)
  {
    && r.nullKeyIndex == st.nullKeyIndex
    && r.numAggStateRows == st.numAggStateRows
    && r.perAggStates == st.perAggStates
    && r.keyIndexForDict == st.keyIndexForDict
    && r.useKeyIndexForDict == st.useKeyIndexForDict
  }

  /**
   * Lookup-or-insert of one non-null key, as the hashing loop does it: an
   * unseen key takes index `++last_used_key_index` and its bytes are stored
   * under that index; a known key changes nothing.
   */
  function InsertKey(st: TextState, fprint: Fprint, key: seq<bv8>): (r: TextState)
    ensures st.lastUsed <= r.lastUsed <= st.lastUsed + 1
    ensures SameButKeys(st, r)
  {
    var tk := KeyOf(fprint, key);
    var p := LookupOrInsert(st.table, st.lastUsed + 1, tk);
    if tk in st.table then st
    else
      var stored := StoreOutputKey(st.outputKeys, st.lastUsed + 1, key, tk);
      st.(table := p.0, lastUsed := p.1 - 1, outputKeys := stored.0)
  }

  /**
   * What one lookup-or-insert does: the table and counter follow
   * `LookupOrInsert`, a new key's bytes are stored under its new index, and
   * a known key leaves the state as it was.
   */
  lemma {:induction false} InsertKeySpec(st: TextState, fprint: Fprint, key: seq<bv8>)
    ensures var r := InsertKey(st, fprint, key);
            var p := LookupOrInsert(st.table, st.lastUsed + 1, KeyOf(fprint, key));
            && r.table == p.0 && r.lastUsed + 1 == p.1
            && (KeyOf(fprint, key) !in st.table ==>
                  r.outputKeys == StoreOutputKey(st.outputKeys, r.lastUsed, key, KeyOf(fprint, key)).0)
            && (KeyOf(fprint, key) in st.table ==> r == st)
  {
  }

  /**
   * The validity bitmap the dictionary filter consults: none, as the source
   * computes the filter, or the key's own when null rows are skipped, as
   * the corrected filter does.
   */
  function FilterValidity(b: TextBatch, skipNullRows: bool): (v: Bitmap)
    requires BatchFits(b) && b.key.ArrowTextDict?
    ensures Covers(v, b.rows)
  {
    if skipNullRows then b.key.validity else Absent
  }

  /**
   * Dictionary entry `d` is hashed: there is no filter, or some row that
   * passes the filter uses the entry. The source counts null rows too
   * (`skipNullRows` false); the corrected filter leaves them out.
   */
  predicate EntryHashed(b: TextBatch, skipNullRows: bool, d: nat)
    requires BatchFits(b) && b.key.ArrowTextDict? && d < b.key.dictLength
  {
    b.filter.Absent? || EntryUsed(b.filter, FilterValidity(b, skipNullRows), b.rows, b.key.indices, b.rows, d)
  }

  /** The bytes of dictionary entry `d`. */
  function EntryBytes(c: TextColumn, d: nat): seq<bv8>
    requires c.ArrowTextDict? && SpansFit(c.spans, c.dictLength) && d < c.dictLength
  {
    GetKey(DictionaryAsText(c), c.dictLength, d).bytes
  }

  /** The dictionary's entries, in order. */
  function DictionaryEntries(c: TextColumn): (entries: seq<seq<bv8>>)
    requires c.ArrowTextDict? && SpansFit(c.spans, c.dictLength)
    ensures |entries| == c.dictLength
    ensures forall d :: 0 <= d < c.dictLength ==> entries[d] == EntryBytes(c, d)
  {
    seq(c.dictLength, d requires 0 <= d < c.dictLength => EntryBytes(c, d))
  }

  /** Which entries the dictionary pass hashes. */
  function HashedEntries(b: TextBatch, skipNullRows: bool): (hashed: seq<bool>)
    requires BatchFits(b) && b.key.ArrowTextDict?
    ensures |hashed| == b.key.dictLength
    ensures forall d :: 0 <= d < b.key.dictLength ==> hashed[d] == EntryHashed(b, skipNullRows, d)
  {
    seq(b.key.dictLength, d requires 0 <= d < b.key.dictLength => EntryHashed(b, skipNullRows, d))
  }

  /** The entries a computed dictionary filter lets through: all of them when there is none. */
  function FilterFlags(dictFilter: Bitmap, n: nat): (flags: seq<bool>)
    requires Covers(dictFilter, n)
    ensures |flags| == n
    ensures forall d :: 0 <= d < n ==> flags[d] == (dictFilter.Absent? || RowBit(dictFilter, n, d))
  {
    seq(n, d requires 0 <= d < n => dictFilter.Absent? || RowBit(dictFilter, n, d))
  }

  /**
   * The dictionary pass (`single_text_dispatch_for_config` over entries
   * `0 .. n - 1` of the dictionary read as a text column): each hashed
   * entry is looked up or inserted in turn and its key index recorded; the
   * other entries keep the 0 the array was cleared to.
   */
  function HashEntries(st: TextState, fprint: Fprint, entries: seq<seq<bv8>>, hashed: seq<bool>, n: nat)
    : (r: (TextState, seq<nat>))
    requires |hashed| == |entries| && n <= |entries|
    ensures |r.1| == n
    ensures st.lastUsed <= r.0.lastUsed <= st.lastUsed + n
    ensures SameButKeys(st, r.0)
    decreases n
  {
    if n == 0 then (st, [])
    else
      var p := HashEntries(st, fprint, entries, hashed, n - 1);
      if hashed[n - 1] then
        var q := InsertKey(p.0, fprint, entries[n - 1]);
        (q, p.1 + [q.table[KeyOf(fprint, entries[n - 1])]])
      else
        (p.0, p.1 + [0])
  }

  /**
   * `r`'s table is well formed and extends `st`'s: keys of `st` keep their
   * index and the keys added take the indices after `st`'s last one.
   */
  ghost predicate Grows(st: TextState, r: TextState)
  {
    Grown(st.table, st.lastUsed + 1, r.table, r.lastUsed + 1, 1)
  }

  /**
   * Key stability of the pass: keys already in the table keep their index,
   * new keys take the consecutive indices after `last_used_key_index`, and
   * the table stays injective.
   */
  lemma {:induction false} HashEntriesStable(st: TextState, fprint: Fprint, entries: seq<seq<bv8>>, hashed: seq<bool>, n: nat)
    requires |hashed| == |entries| && n <= |entries|
    requires Dense(st.table, 1, st.lastUsed + 1)
    ensures Grows(st, HashEntries(st, fprint, entries, hashed, n).0)
  {
    HashEntriesTable(st, fprint, entries, hashed, n);
    var keys := HashedKeys(fprint, entries, hashed, n);
    assert TableIs(st, HashEntries(st, fprint, entries, hashed, n).0, keys);
    InsertAllStable(st.table, 1, st.lastUsed + 1, keys);
    var r := InsertAll(st.table, st.lastUsed + 1, keys);
    assert Grown(st.table, st.lastUsed + 1, r.0, r.1, 1);
    GrowsTo(st, HashEntries(st, fprint, entries, hashed, n).0, r.0, r.1);
  }

  /** The keys of the hashed entries among the first `n`, in order. */
  function HashedKeys(fprint: Fprint, entries: seq<seq<bv8>>, hashed: seq<bool>, n: nat): (keys: seq<TableKey>)
    requires |hashed| == |entries| && n <= |entries|
    ensures |keys| <= n
    decreases n
  {
    if n == 0 then []
    else
      var init := HashedKeys(fprint, entries, hashed, n - 1);
      if hashed[n - 1] then init + [KeyOf(fprint, entries[n - 1])] else init
  }

  /** `p`'s table and counter are those left by inserting `keys` in turn into `st`'s. */
  ghost predicate TableIs(st: TextState, p: TextState, keys: seq<TableKey>)
  {
    var r := InsertAll(st.table, st.lastUsed + 1, keys);
    p.table == r.0 && p.lastUsed + 1 == r.1
  }

  /** `q`'s table and counter are `p`'s after a lookup-or-insert of `k`, or `p`'s unchanged if `!hashed`. */
  ghost predicate TableStepped(p: TextState, q: TextState, k: TableKey, hashed: bool)
  {
    var r := LookupOrInsert(p.table, p.lastUsed + 1, k);
    if hashed then q.table == r.0 && q.lastUsed + 1 == r.1
    else q.table == p.table && q.lastUsed == p.lastUsed
  }

  /** The pass's table is the lookup-or-insert of the hashed entries' keys in turn. */
  lemma {:induction false} HashEntriesTable(st: TextState, fprint: Fprint, entries: seq<seq<bv8>>, hashed: seq<bool>, n: nat)
    requires |hashed| == |entries| && n <= |entries|
    ensures TableIs(st, HashEntries(st, fprint, entries, hashed, n).0, HashedKeys(fprint, entries, hashed, n))
  {
    if n > 0 {
      var init := HashedKeys(fprint, entries, hashed, n - 1);
      var k := KeyOf(fprint, entries[n - 1]);
      HashedKeysLast(fprint, entries, hashed, n);
      HashEntriesTable(st, fprint, entries, hashed, n - 1);
      HashEntriesLastTable(st, fprint, entries, hashed, n);
      TableStep(st, HashEntries(st, fprint, entries, hashed, n - 1).0, HashEntries(st, fprint, entries, hashed, n).0,
                init, k, hashed[n - 1]);
    }
  }

  /** The hashed keys among the first `n` entries, from those among the first `n - 1`. */
  lemma {:induction false} HashedKeysLast(fprint: Fprint, entries: seq<seq<bv8>>, hashed: seq<bool>, n: nat)
    requires |hashed| == |entries| && 0 < n <= |entries|
    ensures var init := HashedKeys(fprint, entries, hashed, n - 1);
            HashedKeys(fprint, entries, hashed, n)
            == if hashed[n - 1] then init + [KeyOf(fprint, entries[n - 1])] else init
  {
  }

  /** One step of `HashEntriesTable`'s induction, on the tables alone. */
  lemma {:induction false} TableStep(st: TextState, p: TextState, q: TextState, init: seq<TableKey>, k: TableKey, hashed: bool)
    requires TableIs(st, p, init) && TableStepped(p, q, k, hashed)
    ensures TableIs(st, q, if hashed then init + [k] else init)
  {
    if hashed {
      InsertAllSnoc(st.table, st.lastUsed + 1, init, k);
    }
  }

  /** `Grows` only looks at the table and the counter. */
  lemma {:induction false} GrowsTo(st: TextState, q: TextState, t: map<TableKey, nat>, m: nat)
    requires Grown(st.table, st.lastUsed + 1, t, m, 1)
    requires q.table == t && q.lastUsed + 1 == m
    ensures Grows(st, q)
  {
  }

  /** The table and counter after `n` entries, from those after `n - 1`. */
  lemma {:induction false} HashEntriesLastTable(st: TextState, fprint: Fprint, entries: seq<seq<bv8>>, hashed: seq<bool>, n: nat)
    requires |hashed| == |entries| && 0 < n <= |entries|
    ensures TableStepped(HashEntries(st, fprint, entries, hashed, n - 1).0, HashEntries(st, fprint, entries, hashed, n).0,
                         KeyOf(fprint, entries[n - 1]), hashed[n - 1])
  {
    HashEntriesLast(st, fprint, entries, hashed, n);
  }

  /** The state after `n` entries is the state after `n - 1`, with entry `n - 1` inserted if it is hashed. */
  lemma {:induction false} HashEntriesLast(st: TextState, fprint: Fprint, entries: seq<seq<bv8>>, hashed: seq<bool>, n: nat)
    requires |hashed| == |entries| && 0 < n <= |entries|
    ensures Stepped(HashEntries(st, fprint, entries, hashed, n - 1).0, HashEntries(st, fprint, entries, hashed, n).0,
                    fprint, entries[n - 1], hashed[n - 1])
  {
  }

  /** `q` is `p` after inserting `key`, or `p` itself if `!hashed`. */
  ghost predicate Stepped(p: TextState, q: TextState, fprint: Fprint, key: seq<bv8>, hashed: bool)
  {
    q == if hashed then InsertKey(p, fprint, key) else p
  }

  /**
   * What the pass records for an entry: a hashed entry's key is in the
   * table and its slot holds the key's index; any other entry holds 0.
   */
  lemma {:induction false} HashEntriesIndices(st: TextState, fprint: Fprint, entries: seq<seq<bv8>>, hashed: seq<bool>,
                                              n: nat, d: nat)
    requires |hashed| == |entries| && n <= |entries| && d < n
    ensures var r := HashEntries(st, fprint, entries, hashed, n);
            && (hashed[d] ==> KeyOf(fprint, entries[d]) in r.0.table
                              && r.1[d] == r.0.table[KeyOf(fprint, entries[d])])
            && (!hashed[d] ==> r.1[d] == 0)
  {
    if d < n - 1 {
      HashEntriesIndices(st, fprint, entries, hashed, n - 1, d);
    }
  }

  /** Every key the pass adds is the key of a hashed entry. */
  lemma {:induction false} HashEntriesNewKeys(st: TextState, fprint: Fprint, entries: seq<seq<bv8>>, hashed: seq<bool>,
                                              n: nat, k: TableKey)
    requires |hashed| == |entries| && n <= |entries|
    requires k in HashEntries(st, fprint, entries, hashed, n).0.table && k !in st.table
    ensures exists d :: 0 <= d < n && hashed[d] && KeyOf(fprint, entries[d]) == k
  {
    var p := HashEntries(st, fprint, entries, hashed, n - 1).0;
    if k in p.table {
      HashEntriesNewKeys(st, fprint, entries, hashed, n - 1, k);
    } else {
      assert hashed[n - 1] && KeyOf(fprint, entries[n - 1]) == k;
    }
  }

  /** The pass keeps every key's stored bytes, and the null key's index and empty entry. */
  lemma {:induction false} HashEntriesOutputs(st: TextState, fprint: Fprint, entries: seq<seq<bv8>>, hashed: seq<bool>, n: nat)
    requires |hashed| == |entries| && n <= |entries|
    requires Dense(st.table, 1, st.lastUsed + 1) && KeysConsistent(st, fprint)
    ensures PassOk(st, HashEntries(st, fprint, entries, hashed, n).0, fprint)
  {
    if n > 0 {
      HashEntriesOutputs(st, fprint, entries, hashed, n - 1);
      HashEntriesLast(st, fprint, entries, hashed, n);
      OutputsStep(st, HashEntries(st, fprint, entries, hashed, n - 1).0, HashEntries(st, fprint, entries, hashed, n).0,
                  fprint, entries[n - 1], hashed[n - 1]);
    }
  }

  /** One step of `HashEntriesOutputs`'s induction. */
  lemma {:induction false} OutputsStep(st: TextState, p: TextState, q: TextState, fprint: Fprint, key: seq<bv8>, hashed: bool)
    requires PassOk(st, p, fprint) && Stepped(p, q, fprint, key, hashed)
    ensures PassOk(st, q, fprint)
  {
    SteppedTable(p, q, fprint, key, hashed);
    StableStep(st, p, q, KeyOf(fprint, key), hashed);
    if hashed {
      InsertKeyOutputs(p, fprint, key);
    }
  }

  /** One lookup-or-insert, or none, keeps what `p` had gained over `st`. */
  lemma {:induction false} StableStep(st: TextState, p: TextState, q: TextState, k: TableKey, hashed: bool)
    requires Grows(st, p) && TableStepped(p, q, k, hashed)
    ensures Grows(st, q)
  {
    if hashed {
      GrownStep(st.table, st.lastUsed + 1, p.table, p.lastUsed + 1, 1, k);
      var r := LookupOrInsert(p.table, p.lastUsed + 1, k);
      GrowsTo(st, q, r.0, r.1);
    } else {
      GrowsTo(st, q, p.table, p.lastUsed + 1);
    }
  }

  /** A step of the pass, seen on the table and counter alone. */
  lemma {:induction false} SteppedTable(p: TextState, q: TextState, fprint: Fprint, key: seq<bv8>, hashed: bool)
    requires Stepped(p, q, fprint, key, hashed)
    ensures TableStepped(p, q, KeyOf(fprint, key), hashed)
  {
  }

  /** The pass keeps the table well formed and the output keys consistent with it. */
  ghost predicate PassOk(st: TextState, q: TextState, fprint: Fprint)
  {
    Grows(st, q) && KeysConsistent(q, fprint)
  }

  /** Inserting a key stores its bytes under its new index and disturbs no other entry. */
  lemma {:induction false} InsertKeyOutputs(st: TextState, fprint: Fprint, key: seq<bv8>)
    requires Dense(st.table, 1, st.lastUsed + 1) && OutputKeysOk(st, fprint) && NullKeyOk(st)
    ensures var r := InsertKey(st, fprint, key);
            OutputKeysOk(r, fprint) && NullKeyOk(r)
  {
    var r := InsertKey(st, fprint, key);
    if KeyOf(fprint, key) !in st.table {
      assert Payload(r.outputKeys[r.lastUsed].value) == key;
      assert forall k :: k in st.table ==> st.table[k] < r.lastUsed;
    }
  }

  /**
   * The null key gets its index separately: if a passing row is null and
   * the null key has no index yet, it takes `++last_used_key_index` and an
   * empty output key.
   */
  function AddNullKey(st: TextState, have: bool): (r: TextState)
    ensures r.table == st.table && r.perAggStates == st.perAggStates
    ensures have && st.nullKeyIndex == 0 ==>
              r == st.(nullKeyIndex := st.lastUsed + 1, lastUsed := st.lastUsed + 1,
                       outputKeys := st.outputKeys[st.lastUsed + 1 := None])
    ensures !(have && st.nullKeyIndex == 0) ==> r == st
  {
    if have && st.nullKeyIndex == 0 then
      st.(nullKeyIndex := st.lastUsed + 1, lastUsed := st.lastUsed + 1,
          outputKeys := st.outputKeys[st.lastUsed + 1 := None])
    else st
  }

  /** `num_agg_state_rows * 2 + 1` once the last used index reaches the row count. */
  function GrownRows(num: nat, last: nat): (r: nat)
    ensures last < num ==> r == num
    ensures num <= r && (last <= 2 * num ==> last < r)
  {
    if last >= num then num * 2 + 1 else num
  }

  /**
   * The arenas after a pass that moved the last used index from `first` to
   * `last`: if it moved, every arena is reallocated when the index reached
   * its row count, and `agg_init` runs on the new slots `first + 1 .. last`.
   */
  function InitNewKeys(arenas: seq<seq<AggState>>, num: nat, first: nat, last: nat): (r: seq<seq<AggState>>)
    requires forall a :: 0 <= a < |arenas| ==> |arenas[a]| == num
    requires last <= 2 * num
    ensures |r| == |arenas|
    ensures forall a :: 0 <= a < |r| ==> |r[a]| == if last > first then GrownRows(num, last) else num
    ensures last <= first ==> r == arenas
    ensures forall a, s :: 0 <= a < |r| && 0 <= s < |r[a]| && last > first ==>
              r[a][s] == if first < s <= last then Initial else if s < num then arenas[a][s] else Uninitialized
  {
    if last > first then
      seq(|arenas|, a requires 0 <= a < |arenas| =>
        InitRange(if last >= num then Grow(arenas[a], num * 2 + 1) else arenas[a], first + 1, last + 1))
    else arenas
  }

  /** After the initialisation every slot up to `last` is initialised. */
  lemma {:induction false} InitNewKeysInitialized(arenas: seq<seq<AggState>>, num: nat, first: nat, last: nat, a: nat, s: nat)
    requires forall a :: 0 <= a < |arenas| ==> |arenas[a]| == num
    requires last <= 2 * num && first < num && a < |arenas| && 1 <= s <= last
    requires forall s :: 1 <= s <= first ==> arenas[a][s].initialized
    ensures InitNewKeys(arenas, num, first, last)[a][s].initialized
  {
    if last > first && s <= first && last >= num {
      var grown := Grow(arenas[a], num * 2 + 1);
      assert grown[..num][s] == arenas[a][s];
    }
  }

  /** The loop over the aggregates that reallocates and initialises their arenas. */
  method InitNewKeysLoop(arenas: seq<seq<AggState>>, num: nat, first: nat, last: nat) returns (r: seq<seq<AggState>>)
    requires forall a :: 0 <= a < |arenas| ==> |arenas[a]| == num
    requires last <= 2 * num
    ensures r == InitNewKeys(arenas, num, first, last)
  {
    if last <= first {
      return arenas;
    }
    r := [];
    var i := 0;
    while i < |arenas|
      invariant i <= |arenas|
      invariant r == InitNewKeys(arenas, num, first, last)[..i]
    {
      var states := arenas[i];
      if last >= num {
        states := Grow(states, num * 2 + 1);
      }
      states := InitSlots(states, first + 1, last + 1);
      r := r + [states];
      i := i + 1;
    }
  }

  /**
   * The batch is hashed through its dictionary: the key column is
   * dictionary-encoded and the dictionary has no more entries than the
   * batch has passing rows.
   */
  predicate UsesDictionary(b: TextBatch)
    requires Covers(b.filter, b.rows)
  {
    b.key.ArrowTextDict? && b.key.dictLength <= NumValid(b.filter, b.rows)
  }

  /** A null row of the batch passes the filter, as `have_null_key` finds out. */
  predicate BatchHasNullKey(b: TextBatch)
    requires BatchFits(b) && b.key.ArrowTextDict?
  {
    HaveNullKey(b.filter, b.key.validity, b.rows, b.key.nullCount)
  }

  /**
   * `single_text_prepare_for_batch`, after the output-key storage is
   * allocated: a batch that is not dictionary-encoded, or whose dictionary
   * has more entries than passing rows, only turns the dictionary path off.
   * Otherwise the dictionary pass runs, the null key gets an index if a
   * passing row is null and it has none yet, `key_index_for_dict` starts
   * with the pass's indices, and the new keys' states are initialised.
   * `skipNullRows` is false for the dictionary filter the source computes
   * and true for the corrected one.
   */
  function Prepare(st: TextState, fprint: Fprint, b: TextBatch, skipNullRows: bool): TextState
    requires BatchFits(b) && b.rows <= GroupingPolicyHash.MaxBatchRows
    requires GroupingPolicyHash.MaxBatchRows <= st.numAggStateRows && st.lastUsed < st.numAggStateRows
    requires forall a :: 0 <= a < |st.perAggStates| ==> |st.perAggStates[a]| == st.numAggStateRows
  {
    if !UsesDictionary(b) then st.(useKeyIndexForDict := false)
    else
      var c := b.key;
      var h := HashEntries(st, fprint, DictionaryEntries(c), HashedEntries(b, skipNullRows), c.dictLength);
      var withNull := AddNullKey(h.0, BatchHasNullKey(b));
      var tail := if c.dictLength <= |st.keyIndexForDict| then st.keyIndexForDict[c.dictLength..] else [];
      var last := withNull.lastUsed;
      withNull.(
        keyIndexForDict := h.1 + tail,
        useKeyIndexForDict := true,
        perAggStates := InitNewKeys(st.perAggStates, st.numAggStateRows, st.lastUsed, last),
        numAggStateRows := if last > st.lastUsed then GrownRows(st.numAggStateRows, last) else st.numAggStateRows)
  }

  /**
   * Preparing a batch keeps the aggregate states of the keys that had an
   * index before it, and gives every index it hands out a freshly
   * initialised state.
   */
  lemma {:induction false} PrepareKeepsStates(st: TextState, fprint: Fprint, b: TextBatch, skipNullRows: bool)
    requires BatchFits(b) && b.rows <= GroupingPolicyHash.MaxBatchRows
    requires GroupingPolicyHash.MaxBatchRows <= st.numAggStateRows && st.lastUsed < st.numAggStateRows
    requires forall a :: 0 <= a < |st.perAggStates| ==> |st.perAggStates[a]| == st.numAggStateRows
    ensures var p := Prepare(st, fprint, b, skipNullRows);
            && |p.perAggStates| == |st.perAggStates|
            && st.lastUsed <= p.lastUsed
            && (forall a :: 0 <= a < |p.perAggStates| ==> p.lastUsed < |p.perAggStates[a]|)
            && (forall a, s :: 0 <= a < |st.perAggStates| && 0 <= s <= st.lastUsed ==>
                  p.perAggStates[a][s] == st.perAggStates[a][s])
            && (forall a, s :: 0 <= a < |st.perAggStates| && st.lastUsed < s <= p.lastUsed ==>
                  p.perAggStates[a][s] == Initial)
  {
    var p := Prepare(st, fprint, b, skipNullRows);
    if UsesDictionary(b) {
      assert p.perAggStates == InitNewKeys(st.perAggStates, st.numAggStateRows, st.lastUsed, p.lastUsed);
    }
  }

  /** The key index `single_text_offsets_translate` gives row `r`. */
  function RowKeyIndex(st: TextState, b: TextBatch, r: nat): nat
    requires BatchFits(b) && b.key.ArrowTextDict? && b.key.dictLength <= |st.keyIndexForDict| && r < b.rows
  {
    if RowBit(b.key.validity, b.rows, r) then st.keyIndexForDict[b.key.indices[r]] else st.nullKeyIndex
  }

  /** Preparing a batch keeps the state well formed. */
  lemma {:induction false} PrepareOk(st: TextState, fprint: Fprint, numDefs: nat, b: TextBatch, skipNullRows: bool)
    requires TextStateOk(st, fprint, numDefs) && BatchFits(b) && b.rows <= GroupingPolicyHash.MaxBatchRows
    ensures TextStateOk(Prepare(st, fprint, b, skipNullRows), fprint, numDefs)
  {
    if UsesDictionary(b) {
      var c := b.key;
      var entries, hashed := DictionaryEntries(c), HashedEntries(b, skipNullRows);
      HashEntriesStable(st, fprint, entries, hashed, c.dictLength);
      HashEntriesOutputs(st, fprint, entries, hashed, c.dictLength);
      var h := HashEntries(st, fprint, entries, hashed, c.dictLength).0;
      AddNullKeyOk(h, fprint, BatchHasNullKey(b));
      var withNull := AddNullKey(h, BatchHasNullKey(b));
      var r := Prepare(st, fprint, b, skipNullRows);
      assert r.table == withNull.table && r.lastUsed == withNull.lastUsed;
      assert r.nullKeyIndex == withNull.nullKeyIndex && r.outputKeys == withNull.outputKeys;
      assert r.perAggStates == InitNewKeys(st.perAggStates, st.numAggStateRows, st.lastUsed, r.lastUsed);
      NewKeysInitialized(st.perAggStates, numDefs, st.numAggStateRows, st.lastUsed, r.lastUsed);
    }
  }

  /** Giving the null key an index keeps the table, the null key and the output keys consistent. */
  lemma {:induction false} AddNullKeyOk(st: TextState, fprint: Fprint, have: bool)
    requires Dense(st.table, 1, st.lastUsed + 1) && NullKeyOk(st) && OutputKeysOk(st, fprint)
    ensures var r := AddNullKey(st, have);
            Dense(r.table, 1, r.lastUsed + 1) && NullKeyOk(r) && OutputKeysOk(r, fprint)
            && st.lastUsed <= r.lastUsed <= st.lastUsed + 1
  {
    if have && st.nullKeyIndex == 0 {
      assert forall k :: k in st.table ==> st.table[k] < st.lastUsed + 1;
    }
  }

  /**
   * After the initialisation the arenas have a slot for every index up to
   * `last`, and each of them is initialised.
   */
  lemma {:induction false} NewKeysInitialized(arenas: seq<seq<AggState>>, numDefs: nat, num: nat, first: nat, last: nat)
    requires GroupingPolicyHash.ArenasOf(arenas, numDefs, num)
    requires first < num && first <= last <= 2 * num
    requires forall a, s :: 0 <= a < numDefs && 1 <= s <= first ==> arenas[a][s].initialized
    ensures var grown := if last > first then GrownRows(num, last) else num;
            && GroupingPolicyHash.ArenasOf(InitNewKeys(arenas, num, first, last), numDefs, grown)
            && last < grown
            && forall a, s :: 0 <= a < numDefs && 1 <= s <= last ==> InitNewKeys(arenas, num, first, last)[a][s].initialized
  {
    forall a, s | 0 <= a < numDefs && 1 <= s <= last
      ensures InitNewKeys(arenas, num, first, last)[a][s].initialized
    {
      InitNewKeysInitialized(arenas, num, first, last, a, s);
    }
  }

  /**
   * The dictionary path agrees with hashing row by row: after a batch is
   * prepared through its dictionary, every row that passes the filter gets
   * a non-zero key index; a non-null row gets the index under which the
   * table holds the row's own key (so hashing the row would find it), and
   * a null row gets the null key's index.
   */
  lemma {:induction false} DictionaryRowsAgree(st: TextState, fprint: Fprint, numDefs: nat, b: TextBatch,
                                               skipNullRows: bool, r: nat)
    requires TextStateOk(st, fprint, numDefs) && BatchFits(b) && b.rows <= GroupingPolicyHash.MaxBatchRows
    requires UsesDictionary(b) && r < b.rows && RowBit(b.filter, b.rows, r)
    ensures var p := Prepare(st, fprint, b, skipNullRows);
            && b.key.dictLength <= |p.keyIndexForDict|
            && RowKeyIndex(p, b, r) != 0
            && (RowBit(b.key.validity, b.rows, r) ==>
                  && RowTableKey(fprint, b.key, b.rows, r) in p.table
                  && RowKeyIndex(p, b, r) == p.table[RowTableKey(fprint, b.key, b.rows, r)])
            && (!RowBit(b.key.validity, b.rows, r) ==> RowKeyIndex(p, b, r) == p.nullKeyIndex)
  {
    var c := b.key;
    var d := c.indices[r];
    var entries, hashed := DictionaryEntries(c), HashedEntries(b, skipNullRows);
    var h := HashEntries(st, fprint, entries, hashed, c.dictLength);
    HashEntriesStable(st, fprint, entries, hashed, c.dictLength);
    var p := Prepare(st, fprint, b, skipNullRows);
    assert p.keyIndexForDict[..c.dictLength] == h.1;
    if RowBit(c.validity, b.rows, r) {
      if b.filter.Present? {
        EntryUsedByRow(b.filter, FilterValidity(b, skipNullRows), b.rows, c.indices, b.rows, d, r);
      }
      HashEntriesIndices(st, fprint, entries, hashed, c.dictLength, d);
      DictionaryRowIsEntry(c, b.rows, r);
      assert p.keyIndexForDict[d] == h.1[d];
    } else {
      PassingNullDetected(b, r);
    }
  }

  /**
   * With a filter, every key the dictionary path adds, with either filter,
   * is the key of the dictionary entry some passing row points at (that
   * row may be null when the source's filter is used).
   */
  lemma {:induction false} NewKeysFromPassingRows(st: TextState, fprint: Fprint, b: TextBatch, skipNullRows: bool,
                                                  k: TableKey)
    requires BatchFits(b) && b.rows <= GroupingPolicyHash.MaxBatchRows && b.filter.Present?
    requires GroupingPolicyHash.MaxBatchRows <= st.numAggStateRows && st.lastUsed < st.numAggStateRows
    requires forall a :: 0 <= a < |st.perAggStates| ==> |st.perAggStates[a]| == st.numAggStateRows
    requires k in Prepare(st, fprint, b, skipNullRows).table && k !in st.table
    ensures b.key.ArrowTextDict?
    ensures exists r :: 0 <= r < b.rows && RowBit(b.filter, b.rows, r)
                        && KeyOf(fprint, EntryBytes(b.key, b.key.indices[r])) == k
  {
    var c := b.key;
    var entries, hashed := DictionaryEntries(c), HashedEntries(b, skipNullRows);
    HashEntriesNewKeys(st, fprint, entries, hashed, c.dictLength, k);
    var d :| 0 <= d < c.dictLength && hashed[d] && KeyOf(fprint, entries[d]) == k;
    var r := EntryUsedWitness(b.filter, FilterValidity(b, skipNullRows), b.rows, c.indices, b.rows, d);
  }

  /**
   * With a filter, the corrected dictionary path adds no key that no
   * passing, non-null row has: every new key is some such row's key.
   */
  lemma {:induction false} NoGroupWithoutRows(st: TextState, fprint: Fprint, b: TextBatch, k: TableKey)
    requires BatchFits(b) && b.rows <= GroupingPolicyHash.MaxBatchRows && b.filter.Present?
    requires GroupingPolicyHash.MaxBatchRows <= st.numAggStateRows && st.lastUsed < st.numAggStateRows
    requires forall a :: 0 <= a < |st.perAggStates| ==> |st.perAggStates[a]| == st.numAggStateRows
    requires k in Prepare(st, fprint, b, true).table && k !in st.table
    ensures exists r :: 0 <= r < b.rows && RowBit(b.filter, b.rows, r) && RowBit(b.key.validity, b.rows, r)
                        && RowTableKey(fprint, b.key, b.rows, r) == k
  {
    var c := b.key;
    var entries, hashed := DictionaryEntries(c), HashedEntries(b, true);
    HashEntriesNewKeys(st, fprint, entries, hashed, c.dictLength, k);
    var d :| 0 <= d < c.dictLength && hashed[d] && KeyOf(fprint, entries[d]) == k;
    var r := EntryUsedWitness(b.filter, c.validity, b.rows, c.indices, b.rows, d);
    DictionaryRowIsEntry(c, b.rows, r);
  }

  /**
   * Two rows, dictionary `["a", "b"]`, row 0 is `"a"`, row 1 is null with
   * index 1, and both rows pass the filter: the source's dictionary filter
   * marks entry `"b"`, so `"b"` gets a key index and initialised states
   * although no passing row has that key; the corrected filter leaves it out.
   */
  lemma {:induction false} NullRowMarksEntryAsWritten()
    ensures var b := TextBatch(2, Present([3]), ArrowTextDict(Present([1]), Spans([0, 1, 2], [97, 98]), 2, [0, 1], 1));
            && BatchFits(b)
            && EntryHashed(b, false, 1)
            && !EntryHashed(b, true, 1)
            && !exists r :: 0 <= r < b.rows && RowBit(b.filter, b.rows, r) && RowBit(b.key.validity, b.rows, r)
                            && b.key.indices[r] == 1
  {
    var b := TextBatch(2, Present([3]), ArrowTextDict(Present([1]), Spans([0, 1, 2], [97, 98]), 2, [0, 1], 1));
    assert BitAt(1, 0) && !BitAt(1, 1) && BitAt(3, 0) && BitAt(3, 1);
    assert RowBit(b.key.validity, 2, 0) && !RowBit(b.key.validity, 2, 1);
    assert NumValid(b.key.validity, 2) == 1;
    assert RowBit(b.filter, 2, 1);
    EntryUsedMeans(b.filter, b.key.validity, 2, b.key.indices, 2, 1);
    EntryUsedByRow(b.filter, Absent, 2, b.key.indices, 2, 1, 1);
  }

  /**
   * The dictionary pass run against a precomputed dictionary filter: the
   * entries the filter lets through are hashed, in order.
   */
  method HashDictionary(st: TextState, fprint: Fprint, b: TextBatch, dictFilter: Bitmap)
    returns (r: TextState, keyIndexForDict: seq<nat>)
    requires BatchFits(b) && b.key.ArrowTextDict?
    requires Covers(dictFilter, b.key.dictLength)
    ensures (r, keyIndexForDict)
            == HashEntries(st, fprint, DictionaryEntries(b.key), FilterFlags(dictFilter, b.key.dictLength), b.key.dictLength)
  {
    var c := b.key;
    ghost var entries, hashed := DictionaryEntries(c), FilterFlags(dictFilter, c.dictLength);
    r, keyIndexForDict := st, [];
    var d := 0;
    while d < c.dictLength
      invariant d <= c.dictLength
      invariant (r, keyIndexForDict) == HashEntries(st, fprint, entries, hashed, d)
    {
      if dictFilter.Absent? || RowBit(dictFilter, c.dictLength, d) {
        var key := GetKey(DictionaryAsText(c), c.dictLength, d).bytes;
        r := InsertKey(r, fprint, key);
        keyIndexForDict := keyIndexForDict + [r.table[KeyOf(fprint, key)]];
      } else {
        keyIndexForDict := keyIndexForDict + [0];
      }
      d := d + 1;
    }
  }

  /**
   * The steps of `single_text_prepare_for_batch` in the source's order,
   * on the policy's fields as one value.
   */
  method PrepareBatch(st: TextState, fprint: Fprint, b: TextBatch) returns (r: TextState)
    requires BatchFits(b) && b.rows <= GroupingPolicyHash.MaxBatchRows
    requires GroupingPolicyHash.MaxBatchRows <= st.numAggStateRows && st.lastUsed < st.numAggStateRows
    requires forall a :: 0 <= a < |st.perAggStates| ==> |st.perAggStates[a]| == st.numAggStateRows
    ensures r == Prepare(st, fprint, b, false)
  {
    if !b.key.ArrowTextDict? || b.key.dictLength > NumValid(b.filter, b.rows) {
      return st.(useKeyIndexForDict := false);
    }
    var c := b.key;
    var first := st.lastUsed;
    var keyIndexForDict := st.keyIndexForDict;
    if c.dictLength > |keyIndexForDict| {
      keyIndexForDict := seq(c.dictLength, _ => 0);
    }
    var dictFilter: Bitmap := Absent;
    if b.filter.Present? {
      var words := DictionaryFilter(b.filter.words, Absent, b.rows, c.indices, c.dictLength);
      dictFilter := Present(words);
      assert b.filter == Present(b.filter.words);
    }
    assert FilterFlags(dictFilter, c.dictLength) == HashedEntries(b, false);
    var have := DetectNullKey(b.filter, c.validity, b.rows, c.nullCount);
    var h, indices := HashDictionary(st, fprint, b, dictFilter);
    var withNull := AddNullKey(h, have);
    var tail := keyIndexForDict[c.dictLength..];
    assert tail == if c.dictLength <= |st.keyIndexForDict| then st.keyIndexForDict[c.dictLength..] else [];
    var arenas := InitNewKeysLoop(st.perAggStates, st.numAggStateRows, first, withNull.lastUsed);
    var num := st.numAggStateRows;
    if withNull.lastUsed > first {
      num := GrownRows(num, withNull.lastUsed);
    }
    r := withNull.(keyIndexForDict := indices + tail, useKeyIndexForDict := true,
                   perAggStates := arenas, numAggStateRows := num);
  }

  /**
   * The policy as this strategy sees it. The UMASH fingerprint function and
   * the aggregates are fixed when the policy is created.
   */
  class TextPolicy {
    const aggDefs: seq<AggDef>
    const fprint: Fprint

    var table: map<TableKey, nat>
    var lastUsedKeyIndex: nat
    var nullKeyIndex: nat
    var outputKeys: map<nat, Option<Varlena>>
    var numAggStateRows: nat
    var perAggStates: seq<seq<AggState>>
    var keyIndexForDict: seq<nat>
    var useKeyIndexForDict: bool

    function State(): TextState
      reads this
    {
      TextState(table, lastUsedKeyIndex, nullKeyIndex, outputKeys, numAggStateRows, perAggStates,
                keyIndexForDict, useKeyIndexForDict)
    }

    ghost predicate Valid()
      reads this
    {
      TextStateOk(State(), fprint, |aggDefs|)
    }

    /** An empty policy with the older policy's initial arena size. */
    constructor (defs: seq<AggDef>, fp: Fprint)
      ensures Valid() && aggDefs == defs && fprint == fp
      ensures State() == TextState(map[], 0, 0, map[], GroupingPolicyHash.InitialAggstateRows,
                                   seq(|defs|, _ => seq(GroupingPolicyHash.InitialAggstateRows, _ => Uninitialized)),
                                   [], false)
    {
      aggDefs := defs;
      fprint := fp;
      table := map[];
      lastUsedKeyIndex := 0;
      nullKeyIndex := 0;
      outputKeys := map[];
      numAggStateRows := GroupingPolicyHash.InitialAggstateRows;
      perAggStates := seq(|defs|, _ => seq(GroupingPolicyHash.InitialAggstateRows, _ => Uninitialized));
      keyIndexForDict := [];
      useKeyIndexForDict := false;
    }

    /** `single_text_prepare_for_batch`. */
    method PrepareForBatch(b: TextBatch)
      requires Valid() && BatchFits(b) && b.rows <= GroupingPolicyHash.MaxBatchRows
      modifies this
      ensures Valid()
      ensures State() == Prepare(old(State()), fprint, b, false)
    {
      PrepareOk(State(), fprint, |aggDefs|, b, false);
      var r := PrepareBatch(State(), fprint, b);
      table, lastUsedKeyIndex, nullKeyIndex, outputKeys := r.table, r.lastUsed, r.nullKeyIndex, r.outputKeys;
      numAggStateRows, perAggStates := r.numAggStateRows, r.perAggStates;
      keyIndexForDict, useKeyIndexForDict := r.keyIndexForDict, r.useKeyIndexForDict;
    }

    /** `single_text_offsets_translate` over rows `start .. end - 1`. */
    method TranslateOffsets(b: TextBatch, start: nat, end: nat, out: array<nat>)
      requires BatchFits(b) && b.key.ArrowTextDict? && useKeyIndexForDict
      requires b.key.dictLength <= |keyIndexForDict|
      requires start <= end <= b.rows && end <= out.Length
      modifies out
      ensures forall r :: start <= r < end ==> out[r] == RowKeyIndex(State(), b, r)
      ensures forall r :: 0 <= r < out.Length && !(start <= r < end) ==> out[r] == old(out[r])
    {
      var c := b.key;
      var row := start;
      while row < end
        invariant start <= row <= end
        invariant forall r :: start <= r < row ==> out[r] == RowKeyIndex(State(), b, r)
        invariant forall r :: 0 <= r < out.Length && !(start <= r < row) ==> out[r] == old(out[r])
      {
        var rowValid := RowBit(c.validity, b.rows, row);
        var dictIndex := c.indices[row];
        if rowValid {
          out[row] := keyIndexForDict[dictIndex];
        } else {
          out[row] := nullKeyIndex;
        }
        row := row + 1;
      }
    }
  }
}
