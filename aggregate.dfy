/**
 * Aggregate-state arenas and the per-batch aggregation step.
 *
 * The aggregate functions themselves (`agg_init`, `agg_many`,
 * `agg_many_scalar`, `agg_const`, `agg_emit`) live outside the grouping
 * code, so a state slot here records only whether `agg_init` has run on it
 * and the sequence of inputs it has absorbed since. The vectorised entry
 * points are taken to absorb exactly what the row-at-a-time fallback does,
 * which makes `Accumulated` the reference every path is measured against.
 */
module Aggregate {
  import opened Bitmap
  import opened PgDatum
  import opened Columns

  /** One call of the transition function: value, null flag, repeat count. */
  datatype AggInput = AggInput(value: Datum, isNull: bool, count: nat)

  /** One aggregate-state slot. */
  datatype AggState = AggState(initialized: bool, inputs: seq<AggInput>)

  /** Memory that no `agg_init` has touched (fresh or reallocated). */
  const Uninitialized: AggState := AggState(false, [])

  /** A slot right after `agg_init`. */
  const Initial: AggState := AggState(true, [])

  /**
   * `VectorAggDef`: the argument column (negative for `count(*)`), the
   * output column, the state size and whether `agg_many_scalar` exists.
   */
  datatype AggDef = AggDef(inputOffset: int, outputOffset: nat, stateBytes: nat, hasManyScalar: bool)

  /** The argument an aggregate sees in one batch. */
  datatype Argument =
    | ArrowArgument(width: nat, values: seq<int>, validity: Bitmap)
    | ScalarArgument(value: Datum, isNull: bool)

  predicate ArgumentFits(arg: Argument, rows: nat)
  {
    match arg
    case ScalarArgument(_, _) => true
    case ArrowArgument(w, values, validity) => ColumnFits(FixedColumn(w, values, validity), rows)
  }

  /**
   * The argument `compute_single_aggregate` collects: the Arrow array of the
   * input column, its scalar Datum, or a null Datum 0 for `count(*)`.
   */
  function ArgumentOf(def: AggDef, b: Batch): (arg: Argument)
    requires BatchFits(b) && def.inputOffset < |b.columns|
    ensures ArgumentFits(arg, b.rows)
    ensures def.inputOffset < 0 ==> arg == ScalarArgument(0, true)
    ensures arg.ArrowArgument? <==> def.inputOffset >= 0 && b.columns[def.inputOffset].FixedColumn?
  {
    if def.inputOffset < 0 then ScalarArgument(0, true)
    else
      match b.columns[def.inputOffset]
      case ScalarColumn(v, n) => ScalarArgument(v, n)
      case FixedColumn(w, values, validity) => ArrowArgument(w, values, validity)
  }

  /** `agg_const(state, value, isnull, n)`. */
  function AggConst(s: AggState, value: Datum, isNull: bool, n: nat): AggState
  {
    s.(inputs := s.inputs + [AggInput(value, isNull, n)])
  }

  /** What row `row` hands to the aggregate: the scalar once, or its element. */
  function RowInput(arg: Argument, rows: nat, row: nat): AggInput
    requires ArgumentFits(arg, rows) && row < rows
  {
    match arg
    case ScalarArgument(v, n) => AggInput(v, n, 1)
    case ArrowArgument(w, values, validity) =>
      CoversPrefix(validity, rows, row + 1);
      AggInput(IntGetDatum(w, values[row]), !RowIsValid(validity, row), 1)
  }

  /** The inputs of all rows of a batch, in row order. */
  function RowInputs(arg: Argument, rows: nat): (inputs: seq<AggInput>)
    requires ArgumentFits(arg, rows)
    ensures |inputs| == rows
    ensures forall r :: 0 <= r < rows ==> inputs[r] == RowInput(arg, rows, r)
    ensures arg.ScalarArgument? ==> forall r :: 0 <= r < rows ==> inputs[r] == AggInput(arg.value, arg.isNull, 1)
  {
    seq(rows, r requires 0 <= r < rows => RowInput(arg, rows, r))
  }

  /** Every offset of the first `n` rows names a slot of a `slots`-long arena. */
  predicate OffsetsIn(offsets: seq<nat>, n: nat, slots: nat)
  {
    n <= |offsets| && forall r :: 0 <= r < n ==> offsets[r] < slots
  }

  /**
   * The reference aggregation of rows `[0, n)`: each row whose offset is
   * non-zero feeds its input to the slot its offset names; offset 0 means
   * "filtered out" and feeds nothing.
   */
  function Accumulated(states: seq<AggState>, offsets: seq<nat>, inputs: seq<AggInput>, n: nat): (r: seq<AggState>)
    requires n <= |inputs| && OffsetsIn(offsets, n, |states|)
    ensures |r| == |states|
    decreases n
  {
    if n == 0 then states
    else
      var prev := Accumulated(states, offsets, inputs, n - 1);
      var o := offsets[n - 1];
      if o == 0 then prev else prev[o := AggConst(prev[o], inputs[n - 1].value, inputs[n - 1].isNull, 1)]
  }

  /** The inputs of the rows among the first `n` whose offset is `s`, in row order. */
  function RowsFor(offsets: seq<nat>, inputs: seq<AggInput>, n: nat, s: nat): seq<AggInput>
    requires n <= |offsets| && n <= |inputs|
  {
    if n == 0 then []
    else RowsFor(offsets, inputs, n - 1, s) + (if offsets[n - 1] == s then [inputs[n - 1].(count := 1)] else [])
  }

  /**
   * Scatter correctness: slot `s` ends with its own inputs followed by the
   * inputs of exactly the rows sent to it, once each with count 1; slot 0
   * is never touched, and no slot's initialisation changes.
   */
  lemma {:induction false} AccumulatedSlot(states: seq<AggState>, offsets: seq<nat>, inputs: seq<AggInput>, n: nat, s: nat)
    requires n <= |inputs| && OffsetsIn(offsets, n, |states|) && s < |states|
    ensures var r := Accumulated(states, offsets, inputs, n);
            && r[s].initialized == states[s].initialized
            && r[s].inputs == states[s].inputs + (if s == 0 then [] else RowsFor(offsets, inputs, n, s))
  {
    if n > 0 {
      AccumulatedSlot(states, offsets, inputs, n - 1, s);
    }
  }

  /** Aggregating a batch changes no slot's initialisation. */
  lemma {:induction false} AccumulatedKeepsInit(states: seq<AggState>, offsets: seq<nat>, inputs: seq<AggInput>, n: nat)
    requires n <= |inputs| && OffsetsIn(offsets, n, |states|)
    ensures var r := Accumulated(states, offsets, inputs, n);
            forall s :: 0 <= s < |states| ==> r[s].initialized == states[s].initialized
  {
    forall s | 0 <= s < |states|
      ensures Accumulated(states, offsets, inputs, n)[s].initialized == states[s].initialized
    {
      AccumulatedSlot(states, offsets, inputs, n, s);
    }
  }

  /** `agg_init` on every slot in `[lo, hi)`; an empty range changes nothing. */
  function InitRange(states: seq<AggState>, lo: nat, hi: nat): (r: seq<AggState>)
    requires hi <= |states|
    ensures |r| == |states|
    ensures forall s :: 0 <= s < |r| ==> r[s] == (if lo <= s < hi then Initial else states[s])
  {
    seq(|states|, s requires 0 <= s < |states| => if lo <= s < hi then Initial else states[s])
  }

  /** `repalloc` to `n` slots: the old slots are kept, the new ones hold no state. */
  function Grow(states: seq<AggState>, n: nat): (r: seq<AggState>)
    requires |states| <= n
    ensures |r| == n && r[..|states|] == states
    ensures forall s :: |states| <= s < n ==> r[s] == Uninitialized
  {
    states + seq(n - |states|, _ => Uninitialized)
  }

  /** Growing to the current size changes nothing. */
  lemma {:induction false} GrowNothing(states: seq<AggState>)
    ensures Grow(states, |states|) == states
  {
    assert Grow(states, |states|)[..|states|] == Grow(states, |states|);
  }

  /** The loop calling `agg_init` on each slot of `[lo, hi)` in turn. */
  method InitSlots(states: seq<AggState>, lo: nat, hi: nat) returns (r: seq<AggState>)
    requires hi <= |states|
    ensures r == InitRange(states, lo, hi)
  {
    r := states;
    var i := lo;
    while i < hi
      invariant |r| == |states|
      invariant lo <= i && (lo <= hi ==> i <= hi)
      invariant forall s :: 0 <= s < |r| ==> r[s] == (if lo <= s < i && s < hi then Initial else states[s])
    {
      r := r[i := Initial];
      i := i + 1;
    }
  }

  /**
   * `compute_single_aggregate`: an Arrow argument goes to `agg_many`, a
   * scalar one (or `count(*)`) to `agg_many_scalar` when the aggregate has
   * it and otherwise to `agg_const` once per row with a non-zero offset.
   * The vectorised entry points are not part of the model and are taken to
   * absorb what the row loop absorbs.
   */
  method ComputeSingleAggregate(def: AggDef, b: Batch, states: seq<AggState>, offsets: array<nat>)
    returns (r: seq<AggState>)
    requires BatchFits(b) && def.inputOffset < |b.columns|
    requires OffsetsIn(offsets[..], b.rows, |states|)
    ensures r == Accumulated(states, offsets[..b.rows], RowInputs(ArgumentOf(def, b), b.rows), b.rows)
  {
    var arg := ArgumentOf(def, b);
    var inputs := RowInputs(arg, b.rows);
    if arg.ArrowArgument? || def.hasManyScalar {
      r := Accumulated(states, offsets[..b.rows], inputs, b.rows);
    } else {
      r := states;
      var i := 0;
      while i < b.rows
        invariant i <= b.rows
        invariant r == Accumulated(states, offsets[..b.rows], inputs, i)
      {
        if offsets[i] != 0 {
          r := r[offsets[i] := AggConst(r[offsets[i]], arg.value, arg.isNull, 1)];
        }
        i := i + 1;
      }
    }
  }
}
