/**
 * The single-key hash grouping policy (`GroupingPolicyHash`): a hash table
 * from the grouping key's Datum to an aggregate-state index, a flag for the
 * null key, one state arena per aggregate, and the emit iterator.
 *
 * State index 0 marks a row the batch filter dropped, index 1 belongs to
 * the null key, and distinct non-null keys take 2, 3, ... in the order they
 * are first seen. The hash table is a `map` (its open-addressing internals
 * and its `hash64` hashing are not part of this model); the order in which
 * it is iterated is handed to the first `DoEmit` call of a round.
 */
module GroupingPolicyHash {
  import opened Wrappers
  import opened Bitmap
  import opened PgDatum
  import opened Columns
  import opened KeyIndex
  import opened Aggregate

  /** `GroupingColumn`: where the key is read from and written to. */
  datatype GroupingColumn = GroupingColumn(inputOffset: nat, outputOffset: nat)

  /** Initial number of state slots and of hash-table entries. */
  const InitialAggstateRows: nat := 1000
  /** The fixed size of the per-batch offsets buffer. */
  const MaxBatchRows: nat := 1000
  /** The state index of the null key. */
  const NullKeyIndex: nat := 1
  /** The first state index a non-null key can get. */
  const FirstKeyIndex: nat := 2

  // ---------------------------------------------------------------------
  // Key readers

  /**
   * `get_key_arrow_fixed` as written: `memcpy` of `width` bytes into a
   * zeroed Datum, which (little-endian) zero-extends the element.
   */
  function ArrowKeyAsWritten(c: Column, rows: nat, row: nat): (k: (Datum, bool))
    requires c.FixedColumn? && ColumnFits(c, rows) && row < rows
    ensures k.0 < Modulus(c.width)
    ensures k.1 == ElementValid(c, rows, row)
    ensures DatumGetInt(c.width, k.0) == c.values[row]
  {
    ZeroExtendRoundTrip(c.width, c.values[row]);
    (ZeroExtend(c.width, c.values[row]), ElementValid(c, rows, row))
  }

  /** The key readers of `fill_offsets_impl` as written. */
  function GetKeyAsWritten(c: Column, rows: nat, row: nat): (k: (Datum, bool))
    requires ColumnFits(c, rows) && row < rows
    ensures c.ScalarColumn? ==> k == (c.value, !c.isNull)
    ensures c.FixedColumn? ==> k == ArrowKeyAsWritten(c, rows, row)
  {
    if c.ScalarColumn? then (c.value, !c.isNull) else ArrowKeyAsWritten(c, rows, row)
  }

  /**
   * The corrected key readers: a scalar column yields its Datum, valid
   * unless null, for every row; an Arrow column yields the element of the
   * row as the Datum `Int16GetDatum`/`Int32GetDatum`/`Int64GetDatum` makes
   * of it, so that an Arrow batch and a scalar batch agree on every key.
   */
  function GetKey(c: Column, rows: nat, row: nat): (k: (Datum, bool))
    requires ColumnFits(c, rows) && row < rows
    ensures c.ScalarColumn? ==> k == (c.value, !c.isNull)
    ensures c.FixedColumn? ==> k.1 == ElementValid(c, rows, row) && DatumGetInt(c.width, k.0) == c.values[row]
  {
    match c
    case ScalarColumn(v, n) => (v, !n)
    case FixedColumn(w, values, _) =>
      DatumRoundTrip(w, values[row]);
      (IntGetDatum(w, values[row]), ElementValid(c, rows, row))
  }

  /**
   * As written, the 2-byte value -1 read from an Arrow array and the same
   * value as the scalar Datum `Int16GetDatum(-1)` are different table keys.
   */
  lemma {:induction false} ArrowKeySplitsGroupsAsWritten()
    ensures GetKeyAsWritten(FixedColumn(2, [-1], Absent), 1, 0) == (0xFFFF, true)
    ensures GetKeyAsWritten(ScalarColumn(IntGetDatum(2, -1), false), 1, 0) == (0xFFFF_FFFF_FFFF_FFFF, true)
  {
    assert ZeroExtend(2, -1) == 0xFFFF;
  }

  /** As written, the 8-byte reader already agrees with `GetKey`. */
  lemma {:induction false} WideArrowKeyAsWrittenAgrees(c: Column, rows: nat, row: nat)
    requires c.FixedColumn? && c.width == 8 && ColumnFits(c, rows) && row < rows
    ensures GetKeyAsWritten(c, rows, row) == GetKey(c, rows, row)
  {
  }

  /**
   * With `GetKey`, an Arrow element and a scalar key column holding the
   * Datum of a value `v` of the same width are one group exactly when the
   * element equals `v`.
   */
  lemma {:induction false} ArrowAndScalarKeysAgree(c: Column, rows: nat, row: nat, v: int)
    requires c.FixedColumn? && ColumnFits(c, rows) && row < rows && InSignedRange(c.width, v)
    ensures GetKey(c, rows, row).0 == GetKey(ScalarColumn(IntGetDatum(c.width, v), false), rows, row).0
            <==> c.values[row] == v
  {
    IntGetDatumInjective(c.width, c.values[row], v);
  }

  // ---------------------------------------------------------------------
  // Key-index assignment

  /** How `fill_offsets_impl` sees a row: filtered out, null key, or a key. */
  datatype RowKey = Filtered | NullKey | Key(key: Datum)

  /**
   * The kind of row `r`: the filter is checked first, then the key's
   * validity. Keys are read as `fill_offsets_impl` reads them, so a 2- or
   * 4-byte Arrow key is the zero-extended element.
   */
  function RowKeyOf(b: Batch, c: Column, r: nat): (k: RowKey)
    requires Covers(b.filter, b.rows) && ColumnFits(c, b.rows) && r < b.rows
    ensures k == Filtered <==> !Passes(b, r)
    ensures k == NullKey <==> Passes(b, r) && !GetKeyAsWritten(c, b.rows, r).1
    ensures k.Key? ==> k.key == GetKeyAsWritten(c, b.rows, r).0
    ensures k.Key? && c.FixedColumn? ==> k.key < Modulus(c.width) && DatumGetInt(c.width, k.key) == c.values[r]
  {
    if !Passes(b, r) then Filtered
    else if !GetKeyAsWritten(c, b.rows, r).1 then NullKey
    else Key(GetKeyAsWritten(c, b.rows, r).0)
  }

  /** The kinds of the first `n` rows of a batch. */
  function RowKeys(b: Batch, c: Column, n: nat): (ks: seq<RowKey>)
    requires Covers(b.filter, b.rows) && ColumnFits(c, b.rows) && n <= b.rows
    ensures |ks| == n
  {
    if n == 0 then [] else RowKeys(b, c, n - 1) + [RowKeyOf(b, c, n - 1)]
  }

  /** Each row's kind is the one `RowKeyOf` gives it. */
  lemma {:induction false} RowKeysAt(b: Batch, c: Column, n: nat, r: nat)
    requires Covers(b.filter, b.rows) && ColumnFits(c, b.rows) && r < n <= b.rows
    ensures RowKeys(b, c, n)[r] == RowKeyOf(b, c, r)
  {
    if r < n - 1 {
      RowKeysAt(b, c, n - 1, r);
    }
  }

  /** The non-null keys of the first `n` passing rows, in row order. */
  function PassingKeys(ks: seq<RowKey>, n: nat): (keys: seq<Datum>)
    requires n <= |ks|
    ensures |keys| <= n
  {
    if n == 0 then []
    else PassingKeys(ks, n - 1) + (if ks[n - 1].Key? then [ks[n - 1].key] else [])
  }

  /** Some row among the first `n` is a passing row with a null key. */
  predicate NullKeyIn(ks: seq<RowKey>, n: nat)
    requires n <= |ks|
  {
    n > 0 && (ks[n - 1] == NullKey || NullKeyIn(ks, n - 1))
  }

  /** The table `t` holds the key of every keyed row among the first `n`. */
  ghost predicate KeysIn(ks: seq<RowKey>, t: map<Datum, nat>, n: nat)
  {
    n <= |ks| && forall r :: 0 <= r < n && ks[r].Key? ==> ks[r].key in t
  }

  /** The state index of a row given the table `t`: 0 if filtered, 1 if null. */
  function RowOffset(k: RowKey, t: map<Datum, nat>): nat
    requires k.Key? ==> k.key in t
  {
    match k
    case Filtered => 0
    case NullKey => NullKeyIndex
    case Key(key) => t[key]
  }

  /**
   * The offsets `offs` after the first `n` rows of a batch, starting from
   * `orig`: each of those rows that passed the filter holds its index in
   * `t`, every other entry is as it was.
   */
  ghost predicate Written(ks: seq<RowKey>, t: map<Datum, nat>, n: nat, offs: seq<nat>, orig: seq<nat>)
  {
    && KeysIn(ks, t, n) && |ks| <= |offs| && |offs| == |orig|
    && (forall r :: 0 <= r < n ==> offs[r] == (if ks[r] != Filtered then RowOffset(ks[r], t) else orig[r]))
    && (forall r :: n <= r < |offs| ==> offs[r] == orig[r])
  }

  /** One more row written, with a table that keeps every earlier index. */
  lemma {:induction false} WrittenStep(ks: seq<RowKey>, t: map<Datum, nat>, n: nat, offs: seq<nat>, orig: seq<nat>,
                    t': map<Datum, nat>, offs': seq<nat>)
    requires Written(ks, t, n, offs, orig) && n < |ks|
    requires forall key :: key in t ==> key in t' && t'[key] == t[key]
    requires ks[n].Key? ==> ks[n].key in t'
    requires offs' == offs[n := if ks[n] == Filtered then offs[n] else RowOffset(ks[n], t')]
    ensures Written(ks, t', n + 1, offs', orig)
  {
  }

  /** One more row folded into the table. */
  lemma {:induction false} FillStep(t0: map<Datum, nat>, next0: nat, ks: seq<RowKey>, n: nat)
    requires n < |ks|
    ensures var p := InsertAll(t0, next0, PassingKeys(ks, n));
            InsertAll(t0, next0, PassingKeys(ks, n + 1))
            == if ks[n].Key? then LookupOrInsert(p.0, p.1, ks[n].key) else p
  {
    var prev := PassingKeys(ks, n);
    if ks[n].Key? {
      assert PassingKeys(ks, n + 1) == prev + [ks[n].key];
      InsertAllSnoc(t0, next0, prev, ks[n].key);
    } else {
      assert PassingKeys(ks, n + 1) == prev;
    }
  }

  /** The offsets of a whole batch. */
  function BatchOffsets(ks: seq<RowKey>, t: map<Datum, nat>): (offsets: seq<nat>)
    requires KeysIn(ks, t, |ks|)
    ensures |offsets| == |ks|
    ensures forall r :: 0 <= r < |ks| ==> offsets[r] == RowOffset(ks[r], t)
    ensures IndicesIn(t, FirstKeyIndex, |t| + FirstKeyIndex) ==> OffsetsIn(offsets, |ks|, |t| + FirstKeyIndex)
  {
    seq(|ks|, r requires 0 <= r < |ks| => RowOffset(ks[r], t))
  }

  /** Offsets written over a zeroed buffer are exactly the batch's offsets. */
  lemma {:induction false} WrittenFromZero(ks: seq<RowKey>, t: map<Datum, nat>, offs: seq<nat>, orig: seq<nat>)
    requires Written(ks, t, |ks|, offs, orig)
    requires forall r :: 0 <= r < |orig| ==> orig[r] == 0
    ensures offs[..|ks|] == BatchOffsets(ks, t)
  {
  }

  /**
   * What the `fill_offsets_impl` loop leaves behind when it starts from a
   * dense table, the first unused index and a zeroed buffer: the table after
   * the batch, the index after its last key, and the batch's offsets.
   */
  lemma {:induction false} FilledBatch(t0: map<Datum, nat>, ks: seq<RowKey>, t1: map<Datum, nat>, nx: nat, offs: seq<nat>, orig: seq<nat>)
    requires Dense(t0, FirstKeyIndex, |t0| + FirstKeyIndex)
    requires (t1, nx) == InsertAll(t0, |t0| + FirstKeyIndex, PassingKeys(ks, |ks|))
    requires Written(ks, t1, |ks|, offs, orig)
    requires forall r :: 0 <= r < |orig| ==> orig[r] == 0
    ensures t1 == TableAfterBatch(t0, ks) && nx == |t1| + FirstKeyIndex
    ensures offs[..|ks|] == BatchOffsets(ks, t1) && OffsetsIn(offs[..|ks|], |ks|, |t1| + FirstKeyIndex)
  {
    InsertAllStable(t0, FirstKeyIndex, |t0| + FirstKeyIndex, PassingKeys(ks, |ks|));
    WrittenFromZero(ks, t1, offs, orig);
  }

  /** Inserting the passing keys of a batch puts every one of them in the table. */
  lemma {:induction false} PassingKeysInserted(ks: seq<RowKey>, t0: map<Datum, nat>, next: nat, n: nat)
    requires n <= |ks|
    ensures KeysIn(ks, InsertAll(t0, next, PassingKeys(ks, n)).0, n)
  {
    if n > 0 {
      PassingKeysInserted(ks, t0, next, n - 1);
      var prev := PassingKeys(ks, n - 1);
      if ks[n - 1].Key? {
        assert PassingKeys(ks, n) == prev + [ks[n - 1].key];
        InsertAllSnoc(t0, next, prev, ks[n - 1].key);
      } else {
        assert PassingKeys(ks, n) == prev;
      }
    }
  }

  /**
   * The table after a batch: the batch's passing keys inserted with fresh
   * indices from `|t0| + 2`. It stays dense, extends `t0`, holds every
   * passing key, and grows by at most one entry per row.
   */
  function TableAfterBatch(t0: map<Datum, nat>, ks: seq<RowKey>): (t: map<Datum, nat>)
    requires Dense(t0, FirstKeyIndex, |t0| + FirstKeyIndex)
    ensures BatchTable(t0, ks, t)
  {
    InsertedBatch(t0, ks);
    InsertAll(t0, |t0| + FirstKeyIndex, PassingKeys(ks, |ks|)).0
  }

  /** Inserting a batch's passing keys into a dense table gives a table the batch can leave. */
  lemma {:induction false} InsertedBatch(t0: map<Datum, nat>, ks: seq<RowKey>)
    requires Dense(t0, FirstKeyIndex, |t0| + FirstKeyIndex)
    ensures BatchTable(t0, ks, InsertAll(t0, |t0| + FirstKeyIndex, PassingKeys(ks, |ks|)).0)
  {
    var keys := PassingKeys(ks, |ks|);
    var r := InsertAll(t0, |t0| + FirstKeyIndex, keys);
    InsertAllStable(t0, FirstKeyIndex, |t0| + FirstKeyIndex, keys);
    InsertAllBound(t0, |t0| + FirstKeyIndex, keys);
    assert r.1 == |r.0| + FirstKeyIndex && |r.0| <= |t0| + |ks|;
    PassingKeysInserted(ks, t0, |t0| + FirstKeyIndex, |ks|);
  }

  /**
   * What the offsets of a batch mean: a filtered row has 0, a passing row
   * with a null key 1, any other row the index of its key, which is at
   * least 2; two rows share an index exactly when they are of the same kind
   * (both filtered, both null, or the same key). `RowKeysAt` and `RowKeyOf`
   * tie the kinds to the filter and the key column.
   */
  lemma {:induction false} BatchOffsetsMeaning(ks: seq<RowKey>, t: map<Datum, nat>, r1: nat, r2: nat)
    requires Dense(t, FirstKeyIndex, |t| + FirstKeyIndex) && KeysIn(ks, t, |ks|)
    requires r1 < |ks| && r2 < |ks|
    ensures var o := BatchOffsets(ks, t);
            && (o[r1] == 0 <==> ks[r1] == Filtered)
            && (o[r1] == NullKeyIndex <==> ks[r1] == NullKey)
            && (ks[r1].Key? ==> FirstKeyIndex <= o[r1] == t[ks[r1].key])
            && (o[r1] == o[r2] <==> ks[r1] == ks[r2])
  {
    if ks[r1].Key? && ks[r2].Key? && t[ks[r1].key] == t[ks[r2].key] {
      assert SameIndex(t, ks[r1].key, ks[r2].key);
    }
  }

  // ---------------------------------------------------------------------
  // State-slot initialisation and the per-batch state update

  /**
   * The first state index `add_batch` initialises, as written: 1 when the
   * table is empty, otherwise `members + 2`.
   */
  function LastInitializedAsWritten(members: nat): (i: nat)
    ensures members > 0 ==> i == members + FirstKeyIndex
    ensures members == 0 ==> i == NullKeyIndex
  {
    if members > 0 then members + 2 else 1
  }

  /**
   * The first state index to initialise: the null-key slot 1 only when
   * nothing has been aggregated since the last reset (no key and no null
   * key), otherwise the first index not yet handed out.
   */
  function LastInitialized(members: nat, haveNullKey: bool): (i: nat)
    ensures i == NullKeyIndex <==> members == 0 && !haveNullKey
    ensures i != NullKeyIndex ==> i == members + FirstKeyIndex
  {
    if members == 0 && !haveNullKey then 1 else members + 2
  }

  /** The capacity after a batch whose next unused index is `next`. */
  function GrownCapacity(capacity: nat, next: nat): (n: nat)
    ensures n >= capacity
    ensures next > capacity ==> n == 2 * capacity + 1
    ensures capacity >= MaxBatchRows && next <= capacity + MaxBatchRows ==> next <= n
  {
    if next > capacity then 2 * capacity + 1 else capacity
  }

  /**
   * One aggregate's arena after a batch: grown to `capacity`, slots
   * `[lastInit, next)` initialised, then the batch's rows aggregated.
   */
  function SlotsAfterBatch(states: seq<AggState>, lastInit: nat, next: nat, capacity: nat,
                           offsets: seq<nat>, inputs: seq<AggInput>): (r: seq<AggState>)
    requires |states| <= capacity && next <= capacity
    requires |offsets| == |inputs| && OffsetsIn(offsets, |offsets|, capacity)
    ensures |r| == capacity
  {
    Accumulated(InitRange(Grow(states, capacity), lastInit, next), offsets, inputs, |inputs|)
  }

  /** One slot after a batch: whether it is initialised, what it held, and its rows. */
  lemma {:induction false} SlotAfterBatch(states: seq<AggState>, lastInit: nat, next: nat, capacity: nat,
                       offsets: seq<nat>, inputs: seq<AggInput>, s: nat)
    requires |states| <= capacity && next <= capacity
    requires |offsets| == |inputs| && OffsetsIn(offsets, |offsets|, capacity)
    requires s < capacity
    ensures var r := SlotsAfterBatch(states, lastInit, next, capacity, offsets, inputs);
            && r[s].initialized == (lastInit <= s < next || (s < |states| && states[s].initialized))
            && (s != 0 ==>
                  r[s].inputs == (if lastInit <= s < next || |states| <= s then [] else states[s].inputs)
                                 + RowsFor(offsets, inputs, |inputs|, s))
  {
    var start := InitRange(Grow(states, capacity), lastInit, next);
    AccumulatedSlot(start, offsets, inputs, |inputs|, s);
  }

  /** The inputs of the rows with key `k`, in row order. */
  function KeyRows(ks: seq<RowKey>, k: Datum, inputs: seq<AggInput>, n: nat): seq<AggInput>
    requires n <= |ks| && n <= |inputs|
  {
    if n == 0 then []
    else KeyRows(ks, k, inputs, n - 1) + (if ks[n - 1] == Key(k) then [inputs[n - 1].(count := 1)] else [])
  }

  /** The inputs of the passing rows whose key is null, in row order. */
  function NullRows(ks: seq<RowKey>, inputs: seq<AggInput>, n: nat): seq<AggInput>
    requires n <= |ks| && n <= |inputs|
  {
    if n == 0 then []
    else NullRows(ks, inputs, n - 1) + (if ks[n - 1] == NullKey then [inputs[n - 1].(count := 1)] else [])
  }

  /** The rows a key's slot receives are exactly the rows with that key. */
  lemma {:induction false} KeySlotRows(ks: seq<RowKey>, t: map<Datum, nat>, k: Datum, inputs: seq<AggInput>, n: nat)
    requires KeysIn(ks, t, |ks|) && Dense(t, FirstKeyIndex, |t| + FirstKeyIndex) && k in t
    requires |ks| == |inputs| && n <= |ks|
    ensures RowsFor(BatchOffsets(ks, t), inputs, n, t[k]) == KeyRows(ks, k, inputs, n)
  {
    if n > 0 {
      KeySlotRows(ks, t, k, inputs, n - 1);
      if ks[n - 1].Key? {
        var k' := ks[n - 1].key;
        if t[k'] == t[k] {
          assert SameIndex(t, k', k);
        }
      }
    }
  }

  /** The rows the null key's slot receives are exactly the passing null rows. */
  lemma {:induction false} NullSlotRows(ks: seq<RowKey>, t: map<Datum, nat>, inputs: seq<AggInput>, n: nat)
    requires KeysIn(ks, t, |ks|) && Dense(t, FirstKeyIndex, |t| + FirstKeyIndex)
    requires |ks| == |inputs| && n <= |ks|
    ensures RowsFor(BatchOffsets(ks, t), inputs, n, NullKeyIndex) == NullRows(ks, inputs, n)
  {
    if n > 0 {
      NullSlotRows(ks, t, inputs, n - 1);
    }
  }

  /**
   * `t` is a table the batch can leave behind when it starts from `t0`:
   * dense, extending `t0`, holding every keyed row's key, and at most one
   * entry per row larger. `TableAfterBatch` is one.
   */
  ghost predicate BatchTable(t0: map<Datum, nat>, ks: seq<RowKey>, t: map<Datum, nat>)
  {
    && Dense(t, FirstKeyIndex, |t| + FirstKeyIndex)
    && Extends(t0, |t0| + FirstKeyIndex, t, |t| + FirstKeyIndex)
    && KeysIn(ks, t, |ks|)
    && |t| <= |t0| + |ks|
  }

  /**
   * What a key's slot held before the batch, as `SlotAfterBatch` sees it:
   * a key already in the table keeps its slot, which lies below the first
   * slot the batch initialises; a new key's slot is one the batch
   * initialises.
   */
  lemma {:induction false} KeySlotPrior(states: seq<AggState>, t0: map<Datum, nat>, h0: bool, t: map<Datum, nat>, k: Datum)
    requires Dense(t0, FirstKeyIndex, |t0| + FirstKeyIndex) && Dense(t, FirstKeyIndex, |t| + FirstKeyIndex)
    requires Extends(t0, |t0| + FirstKeyIndex, t, |t| + FirstKeyIndex) && k in t
    requires |t0| + FirstKeyIndex <= |states|
    ensures var lastInit, s := LastInitialized(|t0|, h0), t[k];
            (if lastInit <= s < |t| + FirstKeyIndex || |states| <= s then [] else states[s].inputs)
            == (if k in t0 then states[t0[k]].inputs else [])
  {
    if k in t0 {
      assert t0.Keys == (t0.Keys - {k}) + {k};
    }
  }

  /**
   * Group correctness of one batch, for one key: afterwards the key's slot
   * holds what it held before (nothing, for a key new in this batch)
   * followed by the inputs of exactly this batch's rows with that key.
   */
  lemma {:induction false} KeyGroupAfterBatch(states: seq<AggState>, t0: map<Datum, nat>, h0: bool, ks: seq<RowKey>,
                           t: map<Datum, nat>, inputs: seq<AggInput>, capacity: nat, k: Datum)
    requires Dense(t0, FirstKeyIndex, |t0| + FirstKeyIndex) && BatchTable(t0, ks, t)
    requires |ks| == |inputs|
    requires |t0| + FirstKeyIndex <= |states| <= capacity && |t| + FirstKeyIndex <= capacity
    requires k in t
    ensures var r := SlotsAfterBatch(states, LastInitialized(|t0|, h0), |t| + FirstKeyIndex, capacity,
                                     BatchOffsets(ks, t), inputs);
            r[t[k]].inputs == (if k in t0 then states[t0[k]].inputs else []) + KeyRows(ks, k, inputs, |inputs|)
  {
    KeySlotPrior(states, t0, h0, t, k);
    SlotAfterBatch(states, LastInitialized(|t0|, h0), |t| + FirstKeyIndex, capacity, BatchOffsets(ks, t), inputs, t[k]);
    KeySlotRows(ks, t, k, inputs, |inputs|);
  }

  /**
   * Group correctness of one batch, for the null key: its slot keeps its
   * earlier inputs unless nothing had been aggregated yet, and gains the
   * batch's passing null rows.
   */
  lemma {:induction false} NullGroupAfterBatch(states: seq<AggState>, t0: map<Datum, nat>, h0: bool, ks: seq<RowKey>,
                            t: map<Datum, nat>, inputs: seq<AggInput>, capacity: nat)
    requires Dense(t0, FirstKeyIndex, |t0| + FirstKeyIndex) && BatchTable(t0, ks, t)
    requires |ks| == |inputs|
    requires |t0| + FirstKeyIndex <= |states| <= capacity && |t| + FirstKeyIndex <= capacity
    ensures var r := SlotsAfterBatch(states, LastInitialized(|t0|, h0), |t| + FirstKeyIndex, capacity,
                                     BatchOffsets(ks, t), inputs);
            r[NullKeyIndex].inputs
            == (if |t0| == 0 && !h0 then [] else states[NullKeyIndex].inputs) + NullRows(ks, inputs, |ks|)
  {
    SlotAfterBatch(states, LastInitialized(|t0|, h0), |t| + FirstKeyIndex, capacity,
                   BatchOffsets(ks, t), inputs, NullKeyIndex);
    NullSlotRows(ks, t, inputs, |ks|);
  }

  /**
   * As written, a batch that starts with an empty table re-initialises the
   * null-key slot even when earlier batches had null keys, so the null group
   * keeps only this batch's null rows.
   */
  lemma {:induction false} NullGroupResetAsWritten(states: seq<AggState>, ks: seq<RowKey>, t: map<Datum, nat>,
                                inputs: seq<AggInput>, capacity: nat)
    requires BatchTable(map[], ks, t) && |ks| == |inputs|
    requires FirstKeyIndex <= |states| <= capacity && |t| + FirstKeyIndex <= capacity
    ensures var r := SlotsAfterBatch(states, LastInitializedAsWritten(0), |t| + FirstKeyIndex, capacity,
                                     BatchOffsets(ks, t), inputs);
            r[NullKeyIndex].inputs == NullRows(ks, inputs, |ks|)
  {
    SlotAfterBatch(states, LastInitializedAsWritten(0), |t| + FirstKeyIndex, capacity,
                   BatchOffsets(ks, t), inputs, NullKeyIndex);
    NullSlotRows(ks, t, inputs, |ks|);
  }

  /**
   * A concrete instance: two batches of one row each whose key is null,
   * counted with `count(*)`. As written the null group ends with one input;
   * with `LastInitialized` it ends with both.
   */
  lemma {:induction false} NullGroupCountExample()
    ensures var b := Batch(1, Absent, [ScalarColumn(0, true)]);
            var ks := RowKeys(b, b.columns[0], 1);
            var inputs := RowInputs(ScalarArgument(0, true), 1);
            var arena := seq(InitialAggstateRows, _ => Uninitialized);
            var t := TableAfterBatch(map[], ks);
            var first := SlotsAfterBatch(arena, LastInitialized(0, false), |t| + FirstKeyIndex, InitialAggstateRows,
                                         BatchOffsets(ks, t), inputs);
            && t == map[]
            && |SlotsAfterBatch(first, LastInitializedAsWritten(0), FirstKeyIndex, InitialAggstateRows,
                                BatchOffsets(ks, t), inputs)[NullKeyIndex].inputs| == 1
            && |SlotsAfterBatch(first, LastInitialized(0, true), FirstKeyIndex, InitialAggstateRows,
                                BatchOffsets(ks, t), inputs)[NullKeyIndex].inputs| == 2
  {
    var b := Batch(1, Absent, [ScalarColumn(0, true)]);
    var ks := RowKeys(b, b.columns[0], 1);
    var inputs := RowInputs(ScalarArgument(0, true), 1);
    var arena := seq(InitialAggstateRows, _ => Uninitialized);
    var t0: map<Datum, nat> := map[];
    assert ks == [NullKey];
    assert PassingKeys(ks, 1) == [];
    assert NullRows(ks, inputs, 1) == [AggInput(0, true, 1)];
    var t := TableAfterBatch(t0, ks);
    NullGroupAfterBatch(arena, t0, false, ks, t, inputs, InitialAggstateRows);
    var first := SlotsAfterBatch(arena, LastInitialized(0, false), |t| + FirstKeyIndex, InitialAggstateRows,
                                 BatchOffsets(ks, t), inputs);
    NullGroupAfterBatch(first, t0, true, ks, t, inputs, InitialAggstateRows);
    NullGroupResetAsWritten(first, ks, t, inputs, InitialAggstateRows);
  }

  /**
   * After a batch every slot from the null slot up to the next unused index
   * is initialised, provided the slots below the first one `agg_init` runs
   * on were initialised before.
   */
  lemma {:induction false} ArenaInitAfterBatch(states: seq<AggState>, lastInit: nat, next: nat, capacity: nat,
                            offsets: seq<nat>, inputs: seq<AggInput>)
    requires |states| <= capacity && lastInit <= next <= capacity
    requires |offsets| == |inputs| && OffsetsIn(offsets, |offsets|, capacity)
    requires forall s :: NullKeyIndex <= s < lastInit ==> s < |states| && states[s].initialized
    ensures var r := SlotsAfterBatch(states, lastInit, next, capacity, offsets, inputs);
            forall s :: NullKeyIndex <= s < next ==> r[s].initialized
  {
    forall s | NullKeyIndex <= s < next
      ensures SlotsAfterBatch(states, lastInit, next, capacity, offsets, inputs)[s].initialized
    {
      SlotAfterBatch(states, lastInit, next, capacity, offsets, inputs, s);
    }
  }


  /**
   * The slots below the first one a batch initialises were initialised
   * before it: the handed-out key slots, and the null slot once a group
   * exists or the null key has been seen.
   */
  lemma {:induction false} InitializedBelow(arenas: seq<seq<AggState>>, members: nat, h0: bool)
    requires forall a :: 0 <= a < |arenas| ==> members + FirstKeyIndex <= |arenas[a]|
    requires forall a, s :: 0 <= a < |arenas| && FirstKeyIndex <= s < members + FirstKeyIndex ==> arenas[a][s].initialized
    requires members > 0 || h0 ==> forall a :: 0 <= a < |arenas| ==> arenas[a][NullKeyIndex].initialized
    ensures forall a, s :: 0 <= a < |arenas| && NullKeyIndex <= s < LastInitialized(members, h0) ==> arenas[a][s].initialized
  {
  }
  /** One arena per aggregate, each of `capacity` slots. */
  predicate ArenasOf(arenas: seq<seq<AggState>>, n: nat, capacity: nat)
  {
    |arenas| == n && forall a :: 0 <= a < n ==> |arenas[a]| == capacity
  }

  /**
   * What `fill_offsets_impl` leaves behind for a batch: the table, the
   * null-key flag, the next unused index, the batch's offsets and the
   * number of valid key elements.
   */
  datatype Filled = Filled(table: map<Datum, nat>, haveNullKey: bool, next: nat,
                           offsets: seq<nat>, validRows: nat)

  /**
   * `fill_offsets_impl` on the values: the next unused index follows the
   * table's last index and moves by at most one per row, and every offset
   * is below it.
   */
  function FillOf(t0: map<Datum, nat>, h0: bool, b: Batch, c: Column): (f: Filled)
    requires Dense(t0, FirstKeyIndex, |t0| + FirstKeyIndex)
    requires Covers(b.filter, b.rows) && ColumnFits(c, b.rows)
    ensures f.next == |f.table| + FirstKeyIndex
    ensures |t0| + FirstKeyIndex <= f.next <= |t0| + FirstKeyIndex + b.rows
    ensures |f.offsets| == b.rows && OffsetsIn(f.offsets, b.rows, f.next)
  {
    var ks := RowKeys(b, c, b.rows);
    var t := TableAfterBatch(t0, ks);
    Filled(t, h0 || NullKeyIn(ks, b.rows), |t| + FirstKeyIndex, BatchOffsets(ks, t),
           NumValid(KeyValidity(c), b.rows))
  }

  /**
   * The part of the policy a batch changes: the key table, the null-key
   * flag, the arena capacity, one arena per aggregate, and the count of
   * valid key elements seen (`stat_input_valid_rows`).
   */
  datatype GroupState = GroupState(table: map<Datum, nat>, haveNullKey: bool, capacity: nat,
                                   arenas: seq<seq<AggState>>, validRows: nat)

  /** Every aggregate's arena after a batch, as `SlotsAfterBatch` gives it. */
  function ArenasAfterBatch(arenas: seq<seq<AggState>>, defs: seq<AggDef>, b: Batch,
                            lastInit: nat, next: nat, capacity: nat, offsets: seq<nat>): (r: seq<seq<AggState>>)
    requires |arenas| == |defs| && BatchFits(b)
    requires forall a :: 0 <= a < |defs| ==> defs[a].inputOffset < |b.columns| && |arenas[a]| <= capacity
    requires next <= capacity && |offsets| == b.rows && OffsetsIn(offsets, b.rows, capacity)
    ensures |r| == |defs|
    ensures forall a :: 0 <= a < |defs| ==>
              r[a] == SlotsAfterBatch(arenas[a], lastInit, next, capacity, offsets, RowInputs(ArgumentOf(defs[a], b), b.rows))
  {
    seq(|defs|, a requires 0 <= a < |defs| =>
          SlotsAfterBatch(arenas[a], lastInit, next, capacity, offsets, RowInputs(ArgumentOf(defs[a], b), b.rows)))
  }

  /**
   * The invariant of the grouping state for the aggregates `defs`: one arena
   * per aggregate, all of the capacity, which is at least the initial one
   * and holds every handed-out index; the table gives its keys the distinct
   * indices `2 .. |table|+1`; every handed-out key slot is initialised, and
   * so is the null slot once any group has been started.
   */
  ghost predicate GroupStateOk(g: GroupState, defs: seq<AggDef>)
  {
    && ArenasOf(g.arenas, |defs|, g.capacity)
    && InitialAggstateRows <= g.capacity
    && |g.table| + FirstKeyIndex <= g.capacity
    && Dense(g.table, FirstKeyIndex, |g.table| + FirstKeyIndex)
    && (forall a, s :: 0 <= a < |defs| && FirstKeyIndex <= s < |g.table| + FirstKeyIndex ==>
          g.arenas[a][s].initialized)
    && ((|g.table| > 0 || g.haveNullKey) ==>
          forall a :: 0 <= a < |defs| ==> g.arenas[a][NullKeyIndex].initialized)
  }

  /** What a batch may be handed to the policy with: every column it reads fits. */
  predicate BatchReady(defs: seq<AggDef>, b: Batch, c: Column)
  {
    && BatchFits(b) && ColumnFits(c, b.rows) && b.rows <= MaxBatchRows
    && forall a :: 0 <= a < |defs| ==> defs[a].inputOffset < |b.columns|
  }

  /**
   * The reference meaning of one `gp_hash_add_batch` call with key column
   * `c`: the table after the batch's keys, the null flag, the capacity grown
   * once if needed, every arena with its new slots initialised (from the
   * corrected `LastInitialized`) and the batch aggregated through the
   * batch's offsets, and the statistic.
   */
  ghost function AfterBatch(g: GroupState, defs: seq<AggDef>, b: Batch, c: Column): GroupState
    requires GroupStateOk(g, defs) && BatchReady(defs, b, c)
  {
    var f := FillOf(g.table, g.haveNullKey, b, c);
    var capacity := GrownCapacity(g.capacity, f.next);
    var lastInit := LastInitialized(|g.table|, g.haveNullKey);
    GroupState(f.table, f.haveNullKey, capacity,
               ArenasAfterBatch(g.arenas, defs, b, lastInit, f.next, capacity, f.offsets),
               g.validRows + f.validRows)
  }

  /** After a batch every arena is initialised from the null slot up to the next unused index. */
  lemma {:induction false} ArenasInitAfterBatch(arenas: seq<seq<AggState>>, defs: seq<AggDef>, b: Batch,
                                                lastInit: nat, next: nat, capacity: nat, offsets: seq<nat>)
    requires |arenas| == |defs| && BatchFits(b)
    requires forall a :: 0 <= a < |defs| ==> defs[a].inputOffset < |b.columns| && lastInit <= |arenas[a]| <= capacity
    requires lastInit <= next <= capacity && |offsets| == b.rows && OffsetsIn(offsets, b.rows, capacity)
    requires forall a, s :: 0 <= a < |defs| && NullKeyIndex <= s < lastInit ==> arenas[a][s].initialized
    ensures var r := ArenasAfterBatch(arenas, defs, b, lastInit, next, capacity, offsets);
            forall a, s :: 0 <= a < |defs| && NullKeyIndex <= s < next ==> r[a][s].initialized
  {
    var r: seq<seq<AggState>> := ArenasAfterBatch(arenas, defs, b, lastInit, next, capacity, offsets);
    forall a: int | 0 <= a < |defs|
      ensures forall s: int :: NullKeyIndex <= s < next ==> r[a][s].initialized
    {
      ArenaInitAfterBatch(arenas[a], lastInit, next, capacity, offsets, RowInputs(ArgumentOf(defs[a], b), b.rows));
    }
  }

  /** A batch keeps the invariant of the grouping state. */
  lemma {:induction false} AfterBatchOk(g: GroupState, defs: seq<AggDef>, b: Batch, c: Column)
    requires GroupStateOk(g, defs) && BatchReady(defs, b, c)
    ensures GroupStateOk(AfterBatch(g, defs, b, c), defs)
  {
    var f := FillOf(g.table, g.haveNullKey, b, c);
    var r := AfterBatch(g, defs, b, c);
    var lastInit := LastInitialized(|g.table|, g.haveNullKey);
    InitializedBelow(g.arenas, |g.table|, g.haveNullKey);
    ArenasInitAfterBatch(g.arenas, defs, b, lastInit, f.next, r.capacity, f.offsets);
  }

  /** Clearing the null-key flag, as emission does, keeps the invariant. */
  lemma {:induction false} NullKeyClearedOk(g: GroupState, defs: seq<AggDef>, h: bool)
    requires GroupStateOk(g, defs) && (h ==> g.haveNullKey)
    ensures GroupStateOk(g.(haveNullKey := h), defs)
  {
  }

  // ---------------------------------------------------------------------
  // Emission

  /** Every key of `order` is in the table. */
  predicate InTable(order: seq<Datum>, t: map<Datum, nat>)
  {
    forall i :: 0 <= i < |order| ==> order[i] in t
  }

  /** The table's iteration order: every key exactly once. */
  predicate Enumerates(order: seq<Datum>, t: map<Datum, nat>)
  {
    && |order| == |t|
    && InTable(order, t)
    && (forall k :: k in t ==> k in order)
    && (forall i, j :: 0 <= i < j < |order| ==> order[i] != order[j])
  }

  /** The emit iterator: whether a round is running, its order and position, and the null flag. */
  datatype Cursor = Cursor(returning: bool, order: seq<Datum>, pos: nat, haveNullKey: bool)

  /** One emitted group: its key, its state index, and whether the key is null. */
  datatype Entry = Entry(key: Datum, stateIndex: nat, keyIsNull: bool)

  /** A running round walks keys of the table and has not run past its end. */
  predicate CursorOk(cur: Cursor, t: map<Datum, nat>)
  {
    cur.returning ==> cur.pos <= |cur.order| && InTable(cur.order, t)
  }

  /**
   * One `do_emit` call: start a round if none is running, then yield the
   * next table entry; once the table is exhausted, yield the null key (key
   * 0, state 1, null) if there is one and clear the flag; otherwise end the
   * round and report that nothing is left.
   */
  function EmitStep(cur: Cursor, t: map<Datum, nat>, startOrder: seq<Datum>): (r: (Cursor, Option<Entry>))
    requires CursorOk(cur, t) && (!cur.returning ==> InTable(startOrder, t))
    ensures CursorOk(r.0, t)
    ensures r.1.None? <==> !r.0.returning
    ensures r.1.Some? && !r.1.value.keyIsNull ==> r.1.value.key in t && r.1.value.stateIndex == t[r.1.value.key]
    ensures r.1.Some? && r.1.value.keyIsNull ==> r.1.value == Entry(0, NullKeyIndex, true) && cur.haveNullKey && !r.0.haveNullKey
    ensures r.1.None? ==> !r.0.haveNullKey
  {
    var c := if cur.returning then cur else Cursor(true, startOrder, 0, cur.haveNullKey);
    if c.pos < |c.order| then (c.(pos := c.pos + 1), Some(Entry(c.order[c.pos], t[c.order[c.pos]], false)))
    else if c.haveNullKey then (c.(haveNullKey := false), Some(Entry(0, NullKeyIndex, true)))
    else (c.(returning := false), None)
  }

  /** `n` consecutive `do_emit` calls: the final cursor and what each call yielded. */
  function EmitRun(cur: Cursor, t: map<Datum, nat>, startOrder: seq<Datum>, n: nat): (r: (Cursor, seq<Option<Entry>>))
    requires CursorOk(cur, t) && InTable(startOrder, t)
    ensures |r.1| == n
    decreases n
  {
    if n == 0 then (cur, [])
    else
      var step := EmitStep(cur, t, startOrder);
      var rest := EmitRun(step.0, t, startOrder, n - 1);
      (rest.0, [step.1] + rest.1)
  }

  /** The table entries in iteration order, from position `p` on. */
  function EntriesFrom(order: seq<Datum>, t: map<Datum, nat>, p: nat): seq<Option<Entry>>
    requires InTable(order, t) && p <= |order|
    decreases |order| - p
  {
    if p == |order| then [] else [Some(Entry(order[p], t[order[p]], false))] + EntriesFrom(order, t, p + 1)
  }

  /** What a round yields after the table entries: the null key if there is one, then "done". */
  function EmitTail(h: bool): seq<Option<Entry>>
  {
    (if h then [Some(Entry(0, NullKeyIndex, true))] else []) + [None]
  }

  /** What remains of a running round at position `p`. */
  lemma {:induction false} EmitRunTail(order: seq<Datum>, t: map<Datum, nat>, startOrder: seq<Datum>, p: nat, h: bool)
    requires InTable(order, t) && InTable(startOrder, t) && p <= |order|
    ensures EmitRun(Cursor(true, order, p, h), t, startOrder, |order| - p + (if h then 1 else 0) + 1)
            == (Cursor(false, order, |order|, false),
                EntriesFrom(order, t, p) + EmitTail(h))
    decreases |order| - p, h
  {
    var cur := Cursor(true, order, p, h);
    var n := |order| - p + (if h then 1 else 0) + 1;
    var tail := EmitTail(h);
    var done := Cursor(false, order, |order|, false);
    if p < |order| {
      var next := Cursor(true, order, p + 1, h);
      var head := Some(Entry(order[p], t[order[p]], false));
      assert EmitStep(cur, t, startOrder) == (next, head);
      EmitRunTail(order, t, startOrder, p + 1, h);
      assert n - 1 == |order| - (p + 1) + (if h then 1 else 0) + 1;
      var rest := EmitRun(next, t, startOrder, n - 1);
      assert EmitRun(cur, t, startOrder, n) == (rest.0, [head] + rest.1);
      assert EntriesFrom(order, t, p) == [head] + EntriesFrom(order, t, p + 1);
      assert [head] + rest.1 == EntriesFrom(order, t, p) + tail;
    } else if h {
      var next := Cursor(true, order, p, false);
      assert EmitStep(cur, t, startOrder) == (next, Some(Entry(0, NullKeyIndex, true)));
      EmitRunTail(order, t, startOrder, p, false);
      assert EntriesFrom(order, t, p) == [];
      assert EmitRun(next, t, startOrder, 1).1 == [None];
      assert [Some(Entry(0, NullKeyIndex, true))] + [None] == EntriesFrom(order, t, p) + tail;
    } else {
      assert EmitStep(cur, t, startOrder) == (done, None);
      assert EntriesFrom(order, t, p) == [];
      assert EmitRun(done, t, startOrder, 0) == (done, []);
      assert [None] + [] == EntriesFrom(order, t, p) + tail;
    }
  }

  /**
   * Emission completeness: from a policy that is not emitting, the next
   * `|t| + 1` calls (one more with a null key) yield every table entry
   * once, in table order, with its own state index, then the null key,
   * then "done", after which the round is over and the null flag cleared.
   */
  lemma {:induction false} EmitsEveryGroupOnce(cur: Cursor, t: map<Datum, nat>, order: seq<Datum>)
    requires !cur.returning && Enumerates(order, t)
    ensures EmitRun(cur, t, order, |t| + (if cur.haveNullKey then 1 else 0) + 1)
            == (Cursor(false, order, |t|, false),
                EntriesFrom(order, t, 0) + EmitTail(cur.haveNullKey))
  {
    var n := |t| + (if cur.haveNullKey then 1 else 0) + 1;
    var started := Cursor(true, order, 0, cur.haveNullKey);
    assert EmitStep(cur, t, order) == EmitStep(started, t, order);
    assert EmitRun(cur, t, order, n) == EmitRun(started, t, order, n);
    EmitRunTail(order, t, order, 0, cur.haveNullKey);
  }

  /** The entries of a full round name each key of the table exactly once, with its own index. */
  lemma {:induction false} EntriesFromEnumerate(order: seq<Datum>, t: map<Datum, nat>, p: nat)
    requires InTable(order, t) && p <= |order|
    ensures |EntriesFrom(order, t, p)| == |order| - p
    ensures forall i :: 0 <= i < |order| - p ==>
              EntriesFrom(order, t, p)[i] == Some(Entry(order[p + i], t[order[p + i]], false))
    decreases |order| - p
  {
    if p < |order| {
      EntriesFromEnumerate(order, t, p + 1);
      var rest := EntriesFrom(order, t, p + 1);
      var e := EntriesFrom(order, t, p);
      assert e == [Some(Entry(order[p], t[order[p]], false))] + rest;
      forall i | 0 < i < |order| - p
        ensures e[i] == Some(Entry(order[p + i], t[order[p + i]], false))
      {
        assert e[i] == rest[i - 1];
        assert p + 1 + (i - 1) == p + i;
      }
    }
  }

  /**
   * After a round has ended, the next `do_emit` starts a new one: with a
   * non-empty table it yields the first entry again.
   */
  lemma {:induction false} EmitRestartsAfterDone(order: seq<Datum>, t: map<Datum, nat>)
    requires Enumerates(order, t) && |t| > 0
    ensures EmitStep(Cursor(false, order, |t|, false), t, order).1 == Some(Entry(order[0], t[order[0]], false))
  {
  }

  /**
   * The body of `gp_hash_add_batch` on the grouping state: note the first
   * slot to initialise (the corrected `LastInitialized`), fill a zeroed
   * offsets buffer from the key column, then grow, initialise and aggregate
   * the arenas.
   */
  method BatchStep(g: GroupState, defs: seq<AggDef>, b: Batch, c: Column) returns (r: GroupState)
    requires GroupStateOk(g, defs) && BatchReady(defs, b, c)
    ensures r == AfterBatch(g, defs, b, c)
  {
    var offsets := new nat[MaxBatchRows](_ => 0);
    var t, h, next, validRows := FillOffsets(g.table, g.haveNullKey, b, c, |g.table| + FirstKeyIndex, offsets);
    var arenas, capacity := ArenaStage(g, defs, b, c, Filled(t, h, next, offsets[..b.rows], validRows), offsets);
    r := GroupState(t, h, capacity, arenas, g.validRows + validRows);
  }

  /**
   * The arena half of `gp_hash_add_batch` on the grouping state, once the
   * offsets buffer holds the batch's offsets; the first slot to initialise
   * is the corrected `LastInitialized`.
   */
  method ArenaStage(g: GroupState, defs: seq<AggDef>, b: Batch, c: Column, f: Filled, offsets: array<nat>)
    returns (arenas: seq<seq<AggState>>, capacity: nat)
    requires GroupStateOk(g, defs) && BatchReady(defs, b, c)
    requires f == FillOf(g.table, g.haveNullKey, b, c)
    requires b.rows <= offsets.Length && offsets[..b.rows] == f.offsets
    ensures arenas == AfterBatch(g, defs, b, c).arenas && capacity == AfterBatch(g, defs, b, c).capacity
  {
    InitializedBelow(g.arenas, |g.table|, g.haveNullKey);
    var lastInit := LastInitialized(|g.table|, g.haveNullKey);
    arenas, capacity := AggregateBatch(defs, b, g.arenas, g.capacity, lastInit, f.next, offsets, f.offsets);
  }

  // ---------------------------------------------------------------------
  // The policy object

  /** One aggregate's output: the output column and the state `agg_emit` reads. */
  datatype AggOutput = AggOutput(outputOffset: nat, state: AggState)

  /** What one successful `do_emit` writes into the output slot. */
  datatype EmittedRow = EmittedRow(aggregates: seq<AggOutput>, keyOffset: nat, key: Datum, keyIsNull: bool)

  /** The sum of the aggregates' state sizes. */
  function StateBytesPerKey(defs: seq<AggDef>): nat
  {
    if defs == [] then 0 else StateBytesPerKey(defs[..|defs| - 1]) + defs[|defs| - 1].stateBytes
  }

  /** The validity bitmap `fill_offsets_impl` counts: none for a scalar column. */
  function KeyValidity(c: Column): Bitmap
  {
    if c.ScalarColumn? then Absent else c.validity
  }

  // ---------------------------------------------------------------------
  // The steps of `gp_hash_add_batch`, on the values they read and write

  /**
   * The body of the `fill_offsets_impl` loop once the row's kind is known:
   * a key is looked up or inserted and the row gets its index, a null key
   * sets the null flag and the row gets index 1, a filtered row is skipped.
   */
  method AssignOffset(t0: map<Datum, nat>, h0: bool, k: RowKey, row: nat, next0: nat, offsets: array<nat>)
    returns (t: map<Datum, nat>, h: bool, next: nat)
    requires row < offsets.Length
    modifies offsets
    ensures (t, next) == (if k.Key? then LookupOrInsert(t0, next0, k.key) else (t0, next0))
    ensures h == (h0 || k == NullKey)
    ensures k.Key? ==> k.key in t
    ensures forall key :: key in t0 ==> key in t && t[key] == t0[key]
    ensures offsets[..] == old(offsets[..])[row := if k == Filtered then old(offsets[row]) else RowOffset(k, t)]
  {
    t, h, next := t0, h0, next0;
    match k {
      case Filtered =>
      case NullKey =>
        h := true;
        offsets[row] := NullKeyIndex;
      case Key(key) =>
        var p := LookupOrInsert(t, next, key);
        t, next := p.0, p.1;
        offsets[row] := t[key];
    }
  }

  /** The filter test and key read of one row of `fill_offsets_impl`. */
  method ReadRowKey(b: Batch, c: Column, row: nat) returns (k: RowKey)
    requires Covers(b.filter, b.rows) && ColumnFits(c, b.rows) && row < b.rows
    ensures k == RowKeys(b, c, b.rows)[row]
  {
    k := RowKeyOf(b, c, row);
    RowKeysAt(b, c, b.rows, row);
  }

  /**
   * The row loop of `fill_offsets_impl`: the table is the lookup-or-insert
   * fold of the passing keys, the null flag records a passing null key, and
   * every passing row has its index written.
   */
  method FillLoop(t0: map<Datum, nat>, h0: bool, b: Batch, c: Column, next0: nat, offsets: array<nat>)
    returns (t: map<Datum, nat>, h: bool, next: nat)
    requires Covers(b.filter, b.rows) && ColumnFits(c, b.rows) && b.rows <= offsets.Length
    modifies offsets
    ensures var ks := RowKeys(b, c, b.rows);
            && (t, next) == InsertAll(t0, next0, PassingKeys(ks, b.rows))
            && h == (h0 || NullKeyIn(ks, b.rows))
            && Written(ks, t, b.rows, offsets[..], old(offsets[..]))
  {
    ghost var ks := RowKeys(b, c, b.rows);
    t, h, next := t0, h0, next0;
    var row := 0;
    while row < b.rows
      invariant row <= b.rows
      invariant (t, next) == InsertAll(t0, next0, PassingKeys(ks, row))
      invariant h == (h0 || NullKeyIn(ks, row))
      invariant Written(ks, t, row, offsets[..], old(offsets[..]))
    {
      var k := ReadRowKey(b, c, row);
      FillStep(t0, next0, ks, row);
      ghost var t1, offs := t, offsets[..];
      t, h, next := AssignOffset(t, h, k, row, next, offsets);
      WrittenStep(ks, t1, row, offs, old(offsets[..]), t, offsets[..]);
      row := row + 1;
    }
  }

  /**
   * `fill_offsets_impl` on a zeroed offsets buffer, starting from a dense
   * table and its first unused index: the table after the batch, the index
   * after its last key, the null flag, the batch's offsets, and the number
   * of valid key elements added to `stat_input_valid_rows`.
   */
  method FillOffsets(t0: map<Datum, nat>, h0: bool, b: Batch, c: Column, next0: nat, offsets: array<nat>)
    returns (t: map<Datum, nat>, h: bool, next: nat, validRows: nat)
    requires Covers(b.filter, b.rows) && ColumnFits(c, b.rows) && b.rows <= offsets.Length
    requires Dense(t0, FirstKeyIndex, |t0| + FirstKeyIndex) && next0 == |t0| + FirstKeyIndex
    requires forall r :: 0 <= r < offsets.Length ==> offsets[r] == 0
    modifies offsets
    ensures Filled(t, h, next, offsets[..b.rows], validRows) == FillOf(t0, h0, b, c)
  {
    ghost var orig := offsets[..];
    t, h, next := FillLoop(t0, h0, b, c, next0, offsets);
    validRows := NumValid(KeyValidity(c), b.rows);
    FilledBatch(t0, RowKeys(b, c, b.rows), t, next, offsets[..], orig);
  }

  /** `repalloc` of every arena to `n` slots. */
  method GrowArenas(arenas: seq<seq<AggState>>, n: nat) returns (r: seq<seq<AggState>>)
    requires forall a :: 0 <= a < |arenas| ==> |arenas[a]| <= n
    ensures |r| == |arenas| && forall a :: 0 <= a < |arenas| ==> r[a] == Grow(arenas[a], n)
  {
    r := arenas;
    var a := 0;
    while a < |r|
      invariant |r| == |arenas| && a <= |r|
      invariant forall i :: 0 <= i < a ==> r[i] == Grow(arenas[i], n)
      invariant forall i :: a <= i < |r| ==> r[i] == arenas[i]
    {
      r := r[a := Grow(r[a], n)];
      a := a + 1;
    }
  }

  /** `agg_init` on slots `[lo, hi)` of every arena. */
  method InitArenas(arenas: seq<seq<AggState>>, lo: nat, hi: nat) returns (r: seq<seq<AggState>>)
    requires forall a :: 0 <= a < |arenas| ==> hi <= |arenas[a]|
    ensures |r| == |arenas| && forall a :: 0 <= a < |arenas| ==> r[a] == InitRange(arenas[a], lo, hi)
  {
    r := arenas;
    var a := 0;
    while a < |r|
      invariant |r| == |arenas| && a <= |r|
      invariant forall i :: 0 <= i < a ==> r[i] == InitRange(arenas[i], lo, hi)
      invariant forall i :: a <= i < |r| ==> r[i] == arenas[i]
    {
      var s := InitSlots(r[a], lo, hi);
      r := r[a := s];
      a := a + 1;
    }
  }

  /**
   * The arena step of `gp_hash_add_batch`: when the batch handed out
   * indices past `lastInit`, grow every arena once (to twice the capacity
   * plus one) if the new indices do not fit, then `agg_init` the slots
   * `[lastInit, next)`.
   */
  method PrepareArenas(arenas: seq<seq<AggState>>, capacity: nat, lastInit: nat, next: nat)
    returns (r: seq<seq<AggState>>, newCapacity: nat)
    requires ArenasOf(arenas, |arenas|, capacity) && InitialAggstateRows <= capacity
    requires lastInit <= capacity && next <= capacity + MaxBatchRows
    ensures newCapacity == GrownCapacity(capacity, next) && next <= newCapacity
    ensures |r| == |arenas|
    ensures forall a :: 0 <= a < |arenas| ==> r[a] == InitRange(Grow(arenas[a], newCapacity), lastInit, next)
  {
    r, newCapacity := arenas, capacity;
    if next > lastInit {
      if next > capacity {
        newCapacity := capacity * 2 + 1;
        r := GrowArenas(r, newCapacity);
      } else {
        forall a | 0 <= a < |arenas|
          ensures Grow(arenas[a], capacity) == arenas[a]
        {
          GrowNothing(arenas[a]);
        }
      }
      r := InitArenas(r, lastInit, next);
    } else {
      forall a | 0 <= a < |arenas|
        ensures InitRange(Grow(arenas[a], capacity), lastInit, next) == arenas[a]
      {
        GrowNothing(arenas[a]);
        assert InitRange(arenas[a], lastInit, next) == arenas[a];
      }
    }
  }

  /** `compute_single_aggregate` for every aggregate, in order. */
  method ComputeAggregates(defs: seq<AggDef>, b: Batch, arenas: seq<seq<AggState>>, capacity: nat, offsets: array<nat>)
    returns (r: seq<seq<AggState>>)
    requires ArenasOf(arenas, |defs|, capacity) && BatchFits(b)
    requires forall a :: 0 <= a < |defs| ==> defs[a].inputOffset < |b.columns|
    requires OffsetsIn(offsets[..], b.rows, capacity)
    ensures |r| == |defs|
    ensures forall a :: 0 <= a < |defs| ==>
              r[a] == Accumulated(arenas[a], offsets[..b.rows], RowInputs(ArgumentOf(defs[a], b), b.rows), b.rows)
  {
    r := arenas;
    var a := 0;
    while a < |defs|
      invariant |r| == |defs| && a <= |defs|
      invariant forall i :: 0 <= i < a ==>
                  r[i] == Accumulated(arenas[i], offsets[..b.rows], RowInputs(ArgumentOf(defs[i], b), b.rows), b.rows)
      invariant forall i :: a <= i < |defs| ==> r[i] == arenas[i]
    {
      var s := ComputeSingleAggregate(defs[a], b, r[a], offsets);
      r := r[a := s];
      a := a + 1;
    }
  }

  /**
   * The arena half of `gp_hash_add_batch`: grow and initialise the arenas
   * for the indices `[lastInit, next)` handed out by the key lookup, then
   * let every aggregate absorb the batch through the offsets. Every slot
   * below `next` is initialised afterwards.
   */
  method AggregateBatch(defs: seq<AggDef>, b: Batch, arenas: seq<seq<AggState>>, capacity: nat,
                        lastInit: nat, next: nat, offsets: array<nat>, ghost offs: seq<nat>)
    returns (r: seq<seq<AggState>>, newCapacity: nat)
    requires ArenasOf(arenas, |defs|, capacity) && InitialAggstateRows <= capacity
    requires lastInit <= next && lastInit <= capacity && next <= capacity + MaxBatchRows
    requires BatchFits(b) && b.rows <= offsets.Length
    requires forall a :: 0 <= a < |defs| ==> defs[a].inputOffset < |b.columns|
    requires offs == offsets[..b.rows] && OffsetsIn(offs, b.rows, next)
    requires forall a, s :: 0 <= a < |defs| && NullKeyIndex <= s < lastInit ==> arenas[a][s].initialized
    ensures newCapacity == GrownCapacity(capacity, next) && next <= newCapacity
    ensures ArenasOf(r, |defs|, newCapacity)
    ensures r == ArenasAfterBatch(arenas, defs, b, lastInit, next, newCapacity, offs)
    ensures forall a, s :: 0 <= a < |defs| && NullKeyIndex <= s < next ==> r[a][s].initialized
  {
    var prepared;
    prepared, newCapacity := PrepareArenas(arenas, capacity, lastInit, next);
    assert OffsetsIn(offsets[..], b.rows, newCapacity) by {
      forall i | 0 <= i < b.rows ensures offsets[..][i] < newCapacity {
        assert offsets[..][i] == offs[i];
      }
    }
    r := ComputeAggregates(defs, b, prepared, newCapacity, offsets);
    assert offsets[..b.rows] == offs;
    forall a | 0 <= a < |defs|
      ensures r[a] == SlotsAfterBatch(arenas[a], lastInit, next, newCapacity,
                                      offs, RowInputs(ArgumentOf(defs[a], b), b.rows))
      ensures forall s :: NullKeyIndex <= s < next ==> r[a][s].initialized
    {
      ArenaInitAfterBatch(arenas[a], lastInit, next, newCapacity,
                          offs, RowInputs(ArgumentOf(defs[a], b), b.rows));
    }
    assert r == ArenasAfterBatch(arenas, defs, b, lastInit, next, newCapacity, offs);
  }

  /**
   * The aggregate loop of `gp_hash_do_emit`: every aggregate hands the
   * state at `index` of its own arena to its output column, in order.
   */
  method EmitAggregates(defs: seq<AggDef>, arenas: seq<seq<AggState>>, index: nat) returns (outs: seq<AggOutput>)
    requires |arenas| == |defs| && forall a :: 0 <= a < |defs| ==> index < |arenas[a]|
    ensures |outs| == |defs|
    ensures forall a :: 0 <= a < |defs| ==> outs[a] == AggOutput(defs[a].outputOffset, arenas[a][index])
  {
    outs := [];
    var a := 0;
    while a < |defs|
      invariant a <= |defs| && |outs| == a
      invariant forall i :: 0 <= i < a ==> outs[i] == AggOutput(defs[i].outputOffset, arenas[i][index])
    {
      outs := outs + [AggOutput(defs[a].outputOffset, arenas[a][index])];
      a := a + 1;
    }
  }

  // ---------------------------------------------------------------------
  // The policy object

  class HashPolicy {
    const aggDefs: seq<AggDef>
    const groupingColumns: seq<GroupingColumn>
    const aggstateBytesPerKey: nat

    var table: map<Datum, nat>
    var haveNullKey: bool
    var returningResults: bool
    var iterOrder: seq<Datum>
    var iterPos: nat
    var allocatedAggstateRows: nat
    var perAggStates: seq<seq<AggState>>
    var statInputValidRows: nat

    /** The fields a batch changes, as one value. */
    function State(): GroupState
      reads this
    {
      GroupState(table, haveNullKey, allocatedAggstateRows, perAggStates, statInputValidRows)
    }

    /**
     * The grouping state keeps its invariant, and a running round iterates
     * the whole table.
     */
    ghost predicate Valid()
      reads this
    {
      && GroupStateOk(State(), aggDefs)
      && iterPos <= |iterOrder|
      && (returningResults ==> Enumerates(iterOrder, table))
    }

    /** `create_grouping_policy_hash`. */
    constructor (defs: seq<AggDef>, columns: seq<GroupingColumn>)
      ensures Valid()
      ensures aggDefs == defs && groupingColumns == columns
      ensures aggstateBytesPerKey == StateBytesPerKey(defs)
      ensures allocatedAggstateRows == InitialAggstateRows
      ensures perAggStates == seq(|defs|, _ => seq(InitialAggstateRows, _ => Uninitialized))
      ensures table == map[] && !haveNullKey && !returningResults && statInputValidRows == 0
    {
      var bytes := 0;
      var states: seq<seq<AggState>> := [];
      var i := 0;
      while i < |defs|
        invariant i <= |defs|
        invariant bytes == StateBytesPerKey(defs[..i])
        invariant states == seq(i, _ => seq(InitialAggstateRows, _ => Uninitialized))
      {
        assert defs[..i + 1][..i] == defs[..i];
        bytes := bytes + defs[i].stateBytes;
        states := states + [seq(InitialAggstateRows, _ => Uninitialized)];
        i := i + 1;
      }
      assert defs[..i] == defs;
      aggDefs := defs;
      groupingColumns := columns;
      aggstateBytesPerKey := bytes;
      allocatedAggstateRows := InitialAggstateRows;
      perAggStates := states;
      table := map[];
      haveNullKey := false;
      returningResults := false;
      iterOrder := [];
      iterPos := 0;
      statInputValidRows := 0;
    }

    /**
     * `gp_hash_reset`: forget every key, the null key, the running round and
     * the statistic; the arenas and their capacity stay for reuse.
     */
    method Reset()
      requires Valid()
      modifies this
      ensures Valid()
      ensures table == map[] && !haveNullKey && !returningResults && statInputValidRows == 0
      ensures perAggStates == old(perAggStates) && allocatedAggstateRows == old(allocatedAggstateRows)
      ensures iterOrder == old(iterOrder) && iterPos == old(iterPos)
    {
      returningResults := false;
      table := map[];
      haveNullKey := false;
      statInputValidRows := 0;
    }

    /** `gp_hash_should_emit`: the policy never asks to be drained early. */
    method ShouldEmit() returns (r: bool)
      ensures !r
    {
      r := false;
    }

    /**
     * `gp_hash_add_batch`, with the null-key slot initialised only when no
     * group has been started since the last reset: the table gains the
     * batch's keys, the arenas grow once if the new indices need it, new
     * slots are initialised, and every aggregate absorbs the batch.
     */
    method AddBatch(b: Batch)
      requires Valid() && !returningResults
      requires |groupingColumns| == 1 && groupingColumns[0].inputOffset < |b.columns|
      requires BatchReady(aggDefs, b, b.columns[groupingColumns[0].inputOffset])
      modifies this`table, this`haveNullKey, this`allocatedAggstateRows, this`perAggStates, this`statInputValidRows
      ensures Valid()
      ensures State() == AfterBatch(old(State()), aggDefs, b, b.columns[groupingColumns[0].inputOffset])
    {
      var c := b.columns[groupingColumns[0].inputOffset];
      var g := BatchStep(State(), aggDefs, b, c);
      AfterBatchOk(State(), aggDefs, b, c);
      table, haveNullKey, allocatedAggstateRows, perAggStates, statInputValidRows :=
        g.table, g.haveNullKey, g.capacity, g.arenas, g.validRows;
    }

    /** The emit iterator's fields, as one value. */
    function Iterator(): Cursor
      reads this
    {
      Cursor(returningResults, iterOrder, iterPos, haveNullKey)
    }

    /**
     * `gp_hash_do_emit`. `order` is the order in which `h_start_iterate`
     * walks the table; it is used when a new round starts. The iterator
     * moves as `EmitStep` says, and a yielded entry comes out with every
     * aggregate's state at the entry's index and the entry's key in the
     * grouping column.
     */
    method DoEmit(order: seq<Datum>) returns (r: Option<EmittedRow>)
      requires Valid() && Enumerates(order, table) && |groupingColumns| == 1
      modifies this`returningResults, this`iterOrder, this`iterPos, this`haveNullKey
      ensures Valid()
      ensures var step := EmitStep(old(Iterator()), table, order);
              && Iterator() == step.0
              && (r.Some? <==> step.1.Some?)
              && (r.Some? ==>
                    && r.value.key == step.1.value.key && r.value.keyIsNull == step.1.value.keyIsNull
                    && r.value.keyOffset == groupingColumns[0].outputOffset
                    && |r.value.aggregates| == |aggDefs|
                    && forall a :: 0 <= a < |aggDefs| ==>
                         r.value.aggregates[a]
                         == AggOutput(aggDefs[a].outputOffset, perAggStates[a][step.1.value.stateIndex]))
    {
      ghost var step := EmitStep(Iterator(), table, order);
      if !returningResults {
        returningResults, iterOrder, iterPos := true, order, 0;
      }
      var entry: Option<Entry>;
      if iterPos < |iterOrder| {
        var key := iterOrder[iterPos];
        entry := Some(Entry(key, table[key], false));
        iterPos := iterPos + 1;
      } else if haveNullKey {
        NullKeyClearedOk(State(), aggDefs, false);
        haveNullKey := false;
        entry := Some(Entry(0, NullKeyIndex, true));
      } else {
        returningResults := false;
        entry := None;
      }
      assert Iterator() == step.0 && entry == step.1;
      if entry.None? {
        return None;
      }
      var outs := EmitAggregates(aggDefs, perAggStates, entry.value.stateIndex);
      r := Some(EmittedRow(outs, groupingColumns[0].outputOffset, entry.value.key, entry.value.keyIsNull));
    }
  }
}
