# Vectorized hash grouping (TimescaleDB) in Dafny

This project models the hash grouping at the core of TimescaleDB's
vectorized aggregation. Batches of decompressed rows arrive with a filter
bitmap. Each passing row is mapped to an aggregate-state index by looking
its grouping key up in a hash table. A key not seen before takes the next
unused index. The per-aggregate state arrays grow and are initialised for
the new indices, and every aggregate then absorbs the batch through the
row-to-index map. Emission walks the table and hands each group's states
and key to the output slot.

Modules, following the C files:

- `GroupingPolicyHash` (`grouping_policy_hash.c`) is the single-key hash
  grouping policy.
  - The class `HashPolicy` holds the table, the null-key flag, the emit
    iterator, the state arenas and the statistic.
  - `add_batch`, `reset`, `should_emit` and `do_emit` are proved against
    value-level specifications (`AfterBatch`, `EmitStep`).
  - Those specifications carry the group-correctness, growth and emission
    lemmas.
- `HashSingleText` (`hash_single_text.c`) is the text-key hashing
  strategy.
  - A key is fingerprinted with UMASH, the table key is part of the
    fingerprint, and the key's bytes are stored for output.
  - A dictionary-encoded batch can be hashed through its dictionary. The
    model covers that path's dictionary filter, null-key detection, the
    pass over the dictionary, the index assignment for the null key, the
    initialisation of the new states, and the translation from rows to
    key indices.
  - The class `TextPolicy` holds the policy fields this strategy updates.
- `SingleFixedKey`, `HashSingleFixed2` and `HashSingleFixed8`
  (`single_fixed_key_impl.c`, `hash_single_fixed_2.c`,
  `hash_single_fixed_8.c`) are the fixed-width key readers and key stores.
- `ArrowTts` (`arrow_tts.h`) holds two helpers of the Arrow tuple slot:
  - the packing of a compressed tuple's row index into a TID, and its
    inverse;
  - the attribute offset map between a relation and its compressed
    relation.
- Supporting modules:
  - `Bitmap` holds Arrow validity and filter bitmaps.
  - `PgDatum` holds `Datum` and the integer conversions.
  - `Columns` holds the batch's column views.
  - `Aggregate` holds state arenas and the per-batch aggregation, with the
    aggregate functions kept abstract.
  - `KeyIndex` holds the abstract lookup-or-insert table.
  - `Mixer` holds `hash64`.
  - `Wrappers` holds `Option` and `Result`.

Index conventions differ between the two policies, and the model keeps
both:

- In `grouping_policy_hash.c`:
  - index 0 is a filtered row;
  - index 1 is the null key;
  - keys take 2, 3, ... in the order they are first seen.
- In `hash_single_text.c`:
  - index 0 is unused;
  - keys and the null key both take `++last_used_key_index`.

Behaviour of the code worth noting:

- After a round of `do_emit` has ended, the next call starts a new round
  from the beginning of the table, because `returning_results` is reset to
  false. This is proved as `GroupingPolicyHash.EmitRestartsAfterDone`.
- Emission follows the hash table's iteration order, with the null key
  last. The order is a parameter of `DoEmit`.
- `gp_hash_should_emit` always answers false.
- The batch size is capped at 1000 rows, because the offsets buffer is a
  1000-entry array.
- `hash_single_fixed_8.c` defines `FULL_KEY_TYPE`, `DATUM_TO_FULL_KEY` and
  `FULL_KEY_TO_DATUM`, but `single_fixed_key_impl.c` is written against
  `CTYPE`, `DATUM_TO_CTYPE` and `CTYPE_TO_DATUM`. The model reads the
  8-byte instantiation as `CTYPE = int64` with the `Int64` conversions.

## Model

| member | source | states |
|---|---|---|
| Mixer.Hash64KnownAnswers | tsl/src/nodes/vector_agg/grouping_policy_hash.c:30-39 | the mixer fixes 0 and has the given values on 1 and 2; the zero-extended and the sign-extended 16-bit -1 hash differently |
| PgDatum.IntGetDatum | tsl/src/nodes/vector_agg/hash_single_fixed_2.c:25 | the Datum of a non-negative key is the key; a negative key is sign-extended to 64 bits (2^64 + k) |
| PgDatum.DatumGetInt | tsl/src/nodes/vector_agg/hash_single_fixed_2.c:24 | the result is always in the signed range of the width |
| PgDatum.ZeroExtend | tsl/src/nodes/vector_agg/grouping_policy_hash.c:253 | a `memcpy` of `width` bytes into a zeroed Datum gives a value below 2^(8*width) |
| PgDatum.DatumRoundTrip | tsl/src/nodes/vector_agg/hash_single_fixed_2.c:24-25 | `DatumGetIntN(IntNGetDatum(k)) == k` for every k in range |
| PgDatum.IntGetDatumInjective | tsl/src/nodes/vector_agg/hash_single_fixed_2.c:24-25 | two keys of one width have equal Datums exactly when they are equal |
| PgDatum.ZeroExtendRoundTrip | tsl/src/nodes/vector_agg/grouping_policy_hash.c:253 | reading a zero-extended pattern back as a signed integer gives the integer |
| KeyIndex.LookupOrInsert | tsl/src/nodes/vector_agg/grouping_policy_hash.c:215-221 | a known key leaves table and counter unchanged; an unseen key is added with the counter's value and the counter advances by one |
| KeyIndex.InsertAllKeys | tsl/src/nodes/vector_agg/grouping_policy_hash.c:202-228 | after inserting a sequence of keys the table holds exactly the old keys and the inserted ones |
| KeyIndex.LookupOrInsertStep | tsl/src/nodes/vector_agg/grouping_policy_hash.c:215-220 | one lookup-or-insert keeps the table injective with indices below the counter, and extends it |
| KeyIndex.InsertAllStable | tsl/src/nodes/vector_agg/grouping_policy_hash.c:202-228 | keys already present keep their index, new keys take consecutive indices from the counter, the counter advances by the number of new keys, and the table stays injective |
| KeyIndex.InsertAllBound | tsl/src/nodes/vector_agg/grouping_policy_hash.c:217-220 | each key advances the counter by zero or one |
| KeyIndex.LookupOrInsertIndex | tsl/src/nodes/vector_agg/grouping_policy_hash.c:216-221 | the index handed out is below the new counter, and is the old counter for an unseen key |
| Aggregate.ArgumentOf | tsl/src/nodes/vector_agg/grouping_policy_hash.c:129-153 | `count(*)` gets the null Datum 0; the argument is an Arrow array exactly when the input column is one, and otherwise the column's scalar |
| Aggregate.RowInputs | tsl/src/nodes/vector_agg/grouping_policy_hash.c:158-191 | every row hands the aggregate its own element, or the scalar once with count 1 |
| Aggregate.AccumulatedSlot | tsl/src/nodes/vector_agg/grouping_policy_hash.c:180-189 | scatter correctness: a slot ends with its own inputs followed by exactly the rows whose offset names it, in row order; slot 0 gets nothing; initialisation is unchanged |
| Aggregate.AccumulatedKeepsInit | tsl/src/nodes/vector_agg/grouping_policy_hash.c:180-189 | aggregating a batch changes no slot's initialisation |
| Aggregate.InitRange | tsl/src/nodes/vector_agg/grouping_policy_hash.c:419-423 | the slots in `[lo, hi)` are freshly initialised, every other slot is unchanged |
| Aggregate.Grow | tsl/src/nodes/vector_agg/grouping_policy_hash.c:410-412 | `repalloc` keeps the old slots as a prefix; the new slots hold no state |
| Aggregate.InitSlots | tsl/src/nodes/vector_agg/grouping_policy_hash.c:419-423 | the `agg_init` loop gives `InitRange` |
| Aggregate.ComputeSingleAggregate | tsl/src/nodes/vector_agg/grouping_policy_hash.c:125-192 | all three call paths (Arrow, `agg_many_scalar`, the `agg_const` loop skipping offset 0) give the reference aggregation `Accumulated` |
| SingleFixedKey.GetKey | tsl/src/nodes/vector_agg/single_fixed_key_impl.c:11-31 | a scalar gives `DATUM_TO_CTYPE` of its Datum, valid unless null; an Arrow array gives the row's element and validity bit; the key is in range |
| SingleFixedKey.StoreKey | tsl/src/nodes/vector_agg/single_fixed_key_impl.c:33-39 | the key is returned unchanged and the slot's Datum reads back as the key |
| SingleFixedKey.StoredKeyReadsBack | tsl/src/nodes/vector_agg/single_fixed_key_impl.c:12-39 | a scalar column holding a stored key reads back on every row as that key, valid |
| SingleFixedKey.ArrowAndScalarAgree | tsl/src/nodes/vector_agg/single_fixed_key_impl.c:15-26 | an Arrow element and a scalar column holding its Datum give the same key |
| SingleFixedKey.KeyEqualMeansSameDatum | tsl/src/nodes/vector_agg/hash_single_fixed_2.c:21-22 | integer key equality is equality of the stored Datums, and equal keys hash alike |
| HashSingleFixed2.GetKey | tsl/src/nodes/vector_agg/hash_single_fixed_2.c:19-27 | the key is an `int16`; an Arrow column must be of width 2 and gives the row's element |
| HashSingleFixed2.StoreKey | tsl/src/nodes/vector_agg/hash_single_fixed_2.c:23-25 | the key is returned and reads back from its Datum; a negative key is stored sign-extended |
| HashSingleFixed2.Int16RoundTrip | tsl/src/nodes/vector_agg/hash_single_fixed_2.c:24-25 | `DatumGetInt16(Int16GetDatum(k)) == k`, and distinct keys have distinct Datums |
| HashSingleFixed8.GetKey | tsl/src/nodes/vector_agg/hash_single_fixed_8.c:20-29 | the key is an `int64`; an Arrow column must be of width 8 and gives the row's element |
| HashSingleFixed8.StoreKey | tsl/src/nodes/vector_agg/hash_single_fixed_8.c:26-27 | the key is returned and reads back from its Datum |
| HashSingleFixed8.Int64RoundTrip | tsl/src/nodes/vector_agg/hash_single_fixed_8.c:24-27 | the conversions round-trip, a non-negative key's Datum is the key, and abbreviated keys are equal exactly when the keys are |
| ArrowTts.TidToCompressedTid | tsl/src/compression/arrow_tts.h:100-111 | the low ten bits of the tuple index land in bits 22..31, the block number in bits 0..21, and the offset is kept |
| ArrowTts.CompressedTidToTid | tsl/src/compression/arrow_tts.h:113-124 | the tuple index is the top ten bits (below 1024), the block number the low 22 bits, and the offset is kept |
| ArrowTts.CompressedTidRoundTrip | tsl/src/compression/arrow_tts.h:100-124 | decoding an encoded TID gives back the TID and the tuple index cut to ten bits |
| ArrowTts.TidFromParts | tsl/src/compression/arrow_tts.h:100-124 | every TID is the encoding of its own decoding |
| ArrowTts.EncodedIsCompressed | tsl/src/compression/arrow_tts.h:97-126 | an encoded TID is compressed exactly when the index's ten bits are not all zero: indices 1..1023 are compressed, `InvalidTupleIndex` is not |
| ArrowTts.PlainTidNotCompressed | tsl/src/compression/arrow_tts.h:113-126 | a TID whose block fits in 22 bits is not compressed and decodes to index 0 and itself |
| ArrowTts.FirstMatch | tsl/src/compression/arrow_tts.h:53-64 | the position found is a non-dropped attribute of the same name, and no earlier one matches |
| ArrowTts.BuildAttributeOffsetMap | tsl/src/compression/arrow_tts.h:35-90 | fails with "missing attribute in compressed relation" exactly when a live attribute has no match; a dropped attribute maps to -1, any other to the first match's `attnum - 1`; the count attno is the first same-named column's `attnum` or `InvalidAttrNumber` |
| GroupingPolicyHash.ArrowKeyAsWritten | tsl/src/nodes/vector_agg/grouping_policy_hash.c:245-254 | the `memcpy` key is below 2^(8*width), reads back as the element, and carries the row's validity bit |
| GroupingPolicyHash.GetKeyAsWritten | tsl/src/nodes/vector_agg/grouping_policy_hash.c:245-284 | a scalar gives its Datum and `!isnull`; an Arrow column gives the zero-extended element |
| GroupingPolicyHash.GetKey | tsl/src/nodes/vector_agg/grouping_policy_hash.c:245-284 | corrected reader, used by no batch step: a scalar as written; an Arrow element is its `IntNGetDatum`, which reads back as the element and carries its validity bit |
| GroupingPolicyHash.ArrowKeySplitsGroupsAsWritten | tsl/src/nodes/vector_agg/grouping_policy_hash.c:253 | as written, the 2-byte -1 gives key 0xFFFF from an Arrow array but 0xFFFFFFFFFFFFFFFF from a scalar |
| GroupingPolicyHash.WideArrowKeyAsWrittenAgrees | tsl/src/nodes/vector_agg/grouping_policy_hash.c:270-276 | for 8-byte keys the reader as written already agrees with the corrected one |
| GroupingPolicyHash.ArrowAndScalarKeysAgree | tsl/src/nodes/vector_agg/grouping_policy_hash.c:245-284 | with the corrected reader, an Arrow element and a scalar `IntNGetDatum(v)` are one group exactly when the element is v |
| GroupingPolicyHash.RowKeyOf | tsl/src/nodes/vector_agg/grouping_policy_hash.c:202-254 | a row is filtered exactly when it fails the filter, null exactly when it passes with an invalid key, and otherwise carries the key `fill_offsets_impl` reads: the scalar Datum, or the zero-extended Arrow element (below 2^(8*width), reading back as the element) |
| GroupingPolicyHash.PassingKeysInserted | tsl/src/nodes/vector_agg/grouping_policy_hash.c:213-221 | after the fold every keyed row's key is in the table |
| GroupingPolicyHash.BatchOffsets | tsl/src/nodes/vector_agg/grouping_policy_hash.c:202-228 | each row's offset is 0 if filtered, 1 if null, else its key's index, and all are below the next unused index |
| GroupingPolicyHash.TableAfterBatch | tsl/src/nodes/vector_agg/grouping_policy_hash.c:202-228 | the table stays dense, extends the old one, holds every passing key, and grows by at most one per row |
| GroupingPolicyHash.BatchOffsetsMeaning | tsl/src/nodes/vector_agg/grouping_policy_hash.c:202-228 | offset 0 if and only if filtered, 1 if and only if null key, a key's index is at least 2, and two rows share an offset exactly when their row keys are equal |
| GroupingPolicyHash.LastInitializedAsWritten | tsl/src/nodes/vector_agg/grouping_policy_hash.c:348-349 | as written: 1 for an empty table, else `members + 2` |
| GroupingPolicyHash.LastInitialized | tsl/src/nodes/vector_agg/grouping_policy_hash.c:344-350 | corrected: 1 exactly when neither a key nor the null key has been seen, else `members + 2` |
| GroupingPolicyHash.GrownCapacity | tsl/src/nodes/vector_agg/grouping_policy_hash.c:402-414 | never shrinks; `2 * capacity + 1` when the next index exceeds the capacity; then the next index fits |
| GroupingPolicyHash.SlotAfterBatch | tsl/src/nodes/vector_agg/grouping_policy_hash.c:402-434 | a slot is initialised after the batch exactly when it is new or was before; it holds its old inputs (none if reinitialised or new) followed by exactly its rows |
| GroupingPolicyHash.KeySlotRows | tsl/src/nodes/vector_agg/grouping_policy_hash.c:202-228 | a key's slot receives exactly the rows with that key |
| GroupingPolicyHash.NullSlotRows | tsl/src/nodes/vector_agg/grouping_policy_hash.c:223-227 | the null slot receives exactly the passing rows with a null key |
| GroupingPolicyHash.KeyGroupAfterBatch | tsl/src/nodes/vector_agg/grouping_policy_hash.c:337-435 | group correctness: a key's slot holds its earlier inputs (none for a new key) followed by exactly this batch's rows with that key |
| GroupingPolicyHash.NullGroupAfterBatch | tsl/src/nodes/vector_agg/grouping_policy_hash.c:344-350 | corrected: the null slot keeps its earlier inputs once any group exists and gains the batch's passing null rows |
| GroupingPolicyHash.NullGroupResetAsWritten | tsl/src/nodes/vector_agg/grouping_policy_hash.c:348-349 | as written, a batch starting from an empty table leaves only its own null rows in the null slot |
| GroupingPolicyHash.NullGroupCountExample | tsl/src/nodes/vector_agg/grouping_policy_hash.c:348-349 | two one-row batches with a null key: one input in the null group as written, two when corrected |
| GroupingPolicyHash.ArenaInitAfterBatch | tsl/src/nodes/vector_agg/grouping_policy_hash.c:402-425 | after a batch every slot from 1 up to the next unused index is initialised |
| GroupingPolicyHash.InitializedBelow | tsl/src/nodes/vector_agg/grouping_policy_hash.c:344-350 | the slots below the first one the batch initialises were initialised already |
| GroupingPolicyHash.FillOf | tsl/src/nodes/vector_agg/grouping_policy_hash.c:194-254 | over the keys as `fill_offsets_impl` reads them: the next unused index follows the table, grows by at most one per row, and bounds every offset |
| GroupingPolicyHash.ArenasAfterBatch | tsl/src/nodes/vector_agg/grouping_policy_hash.c:427-434 | each aggregate's arena is its `SlotsAfterBatch` with that aggregate's own argument |
| GroupingPolicyHash.ArenasInitAfterBatch | tsl/src/nodes/vector_agg/grouping_policy_hash.c:402-434 | every arena is initialised from slot 1 up to the next unused index |
| GroupingPolicyHash.AfterBatchOk | tsl/src/nodes/vector_agg/grouping_policy_hash.c:337-435 | a batch keeps the invariant: arenas of the capacity, capacity at least 1000 and above every index, table dense from 2, used slots initialised |
| GroupingPolicyHash.NullKeyClearedOk | tsl/src/nodes/vector_agg/grouping_policy_hash.c:468-473 | clearing the null flag during emission keeps the invariant |
| GroupingPolicyHash.EmitStep | tsl/src/nodes/vector_agg/grouping_policy_hash.c:449-479 | each call yields a table entry with its own index, or the null key `(0, 1, null)` once with the flag cleared, or "done", which ends the round |
| GroupingPolicyHash.EmitRunTail | tsl/src/nodes/vector_agg/grouping_policy_hash.c:465-479 | from any position a running round yields the remaining entries, the null key if any, then "done" |
| GroupingPolicyHash.EmitsEveryGroupOnce | tsl/src/nodes/vector_agg/grouping_policy_hash.c:449-498 | emission completeness: `|t|+1` calls (one more with a null key) yield every table entry once in table order, then the null key, then "done" |
| GroupingPolicyHash.EntriesFromEnumerate | tsl/src/nodes/vector_agg/grouping_policy_hash.c:458-466 | the i-th entry of a round is the i-th key of the order with its own index |
| GroupingPolicyHash.EmitRestartsAfterDone | tsl/src/nodes/vector_agg/grouping_policy_hash.c:454-478 | after "done" the next call starts a new round and yields the first entry again |
| GroupingPolicyHash.BatchStep | tsl/src/nodes/vector_agg/grouping_policy_hash.c:337-435 | the body of `add_batch`, reading keys as written and with the corrected first initialised slot, computes `AfterBatch` |
| GroupingPolicyHash.ArenaStage | tsl/src/nodes/vector_agg/grouping_policy_hash.c:399-434 | the arena half, with the corrected first initialised slot, gives `AfterBatch`'s arenas and capacity |
| GroupingPolicyHash.AssignOffset | tsl/src/nodes/vector_agg/grouping_policy_hash.c:208-227 | a key is looked up or inserted and its row gets its index; a null key sets the flag and gets 1; a filtered row changes nothing |
| GroupingPolicyHash.FillLoop | tsl/src/nodes/vector_agg/grouping_policy_hash.c:202-228 | with keys read as written, the table is the lookup-or-insert fold of the passing keys, the flag records a passing null, and every passing row's offset is written |
| GroupingPolicyHash.FillOffsets | tsl/src/nodes/vector_agg/grouping_policy_hash.c:194-233 | on a zeroed buffer the result is `FillOf` (keys read as written), including the count of valid key elements |
| GroupingPolicyHash.GrowArenas | tsl/src/nodes/vector_agg/grouping_policy_hash.c:404-414 | every arena is `repalloc`ed to the new size |
| GroupingPolicyHash.InitArenas | tsl/src/nodes/vector_agg/grouping_policy_hash.c:416-424 | every arena has `agg_init` run on `[lo, hi)` |
| GroupingPolicyHash.PrepareArenas | tsl/src/nodes/vector_agg/grouping_policy_hash.c:402-425 | the capacity is `GrownCapacity`, every arena is grown once and its new slots initialised |
| GroupingPolicyHash.ComputeAggregates | tsl/src/nodes/vector_agg/grouping_policy_hash.c:427-434 | every aggregate absorbs the batch through the offsets as `Accumulated` says |
| GroupingPolicyHash.AggregateBatch | tsl/src/nodes/vector_agg/grouping_policy_hash.c:399-434 | the arenas become `ArenasAfterBatch` at the grown capacity, and every slot below the next index is initialised |
| GroupingPolicyHash.EmitAggregates | tsl/src/nodes/vector_agg/grouping_policy_hash.c:481-490 | each aggregate emits the state at the entry's index of its own arena to its own output column |
| GroupingPolicyHash.HashPolicy.constructor | tsl/src/nodes/vector_agg/grouping_policy_hash.c:81-108 | 1000 uninitialised slots per aggregate, the state sizes summed, an empty table, no null key, not emitting |
| GroupingPolicyHash.HashPolicy.Reset | tsl/src/nodes/vector_agg/grouping_policy_hash.c:110-123 | table, null flag, round and statistic are cleared; the arenas are kept for reuse |
| GroupingPolicyHash.HashPolicy.ShouldEmit | tsl/src/nodes/vector_agg/grouping_policy_hash.c:437-447 | always false |
| GroupingPolicyHash.HashPolicy.AddBatch | tsl/src/nodes/vector_agg/grouping_policy_hash.c:337-435 | the new state is `AfterBatch` of the old one (keys read as written, the corrected first initialised slot), and the invariant holds |
| GroupingPolicyHash.HashPolicy.DoEmit | tsl/src/nodes/vector_agg/grouping_policy_hash.c:449-498 | the iterator fields move as `EmitStep` says: a round starts with the given order, then the next entry, the null key once, or the end of the round; a yielded row carries every aggregate's state at the entry's index and the entry's key and null flag at the grouping column |
| HashSingleText.TableKeyEqual | tsl/src/nodes/vector_agg/hash_single_text.c:23-32 | two fingerprints give equal table keys exactly when their second lanes agree and their first lanes agree in the low 32 bits |
| HashSingleText.Payload | tsl/src/nodes/vector_agg/hash_single_text.c:56-57 | the payload is `VARSIZE - VARHDRSZ` bytes long |
| HashSingleText.BytesView | tsl/src/nodes/vector_agg/hash_single_text.c:34-42 | value i is the data between offsets i and i+1 |
| HashSingleText.DictionaryAsText | tsl/src/nodes/vector_agg/hash_single_text.c:273-275 | the dictionary is hashed as a plain text column with the same spans and no validity bitmap |
| HashSingleText.DictionaryRowIsEntry | tsl/src/nodes/vector_agg/hash_single_text.c:60-70 | a dictionary row's key is the bytes of the entry its index names, with the row's own validity |
| HashSingleText.StoreOutputKey | tsl/src/nodes/vector_agg/hash_single_text.c:95-107 | a fitting text datum is stored under the new index only, and the table key is returned unchanged |
| HashSingleText.StoredKeyReadsBack | tsl/src/nodes/vector_agg/hash_single_text.c:95-107 | a stored key read back as a scalar key is the same bytes, valid, with the same table key |
| HashSingleText.EntryUsedMeans | tsl/src/nodes/vector_agg/hash_single_text.c:195-212 | an entry is used exactly when some row passes, is valid and points at it |
| HashSingleText.UsedFlagsNext | tsl/src/nodes/vector_agg/hash_single_text.c:202-203 | each row ORs its bit into the flag of the entry it points at |
| HashSingleText.UsedFlagsMeans | tsl/src/nodes/vector_agg/hash_single_text.c:195-212 | an entry's flag is set exactly when the entry is used |
| HashSingleText.DictionaryFilter | tsl/src/nodes/vector_agg/hash_single_text.c:183-234 | bit d of the dictionary filter is set exactly when some row that passes (and, if a validity bitmap is passed, is not null) points at entry d; the source's call passes none |
| HashSingleText.MarkUsedEntries | tsl/src/nodes/vector_agg/hash_single_text.c:191-212 | the first loop nest leaves a flag per entry equal to "some passing row points at it" |
| HashSingleText.MarkWord | tsl/src/nodes/vector_agg/hash_single_text.c:198-207 | the inner loop advances the flags by the rows of one filter word |
| HashSingleText.RowPasses | tsl/src/nodes/vector_agg/hash_single_text.c:199-203 | the bit tested is the row's filter bit; a validity bitmap, when one is passed for the corrected filter, is tested as well. The source's filter passes none and tests the filter bit alone |
| HashSingleText.PackFlags | tsl/src/nodes/vector_agg/hash_single_text.c:215-231 | the flags are packed 64 to a word, flag d at bit d%64 of word d/64 |
| HashSingleText.PackWord | tsl/src/nodes/vector_agg/hash_single_text.c:217-223 | bits 0..count-1 are the flags, the higher bits are clear |
| HashSingleText.DetectNullKey | tsl/src/nodes/vector_agg/hash_single_text.c:245-267 | `have_null_key` is `null_count > 0` and, under a filter, some word with a passing null row |
| HashSingleText.PassingNullDetected | tsl/src/nodes/vector_agg/hash_single_text.c:245-267 | a null row that passes the filter is always detected |
| HashSingleText.InsertKey | tsl/src/nodes/vector_agg/hash_single_text.c:87-107 | one lookup-or-insert advances the last used index by at most one and changes only the table, the index and the output keys |
| HashSingleText.InsertKeySpec | tsl/src/nodes/vector_agg/hash_single_text.c:95-107 | the table follows `LookupOrInsert`, a new key's bytes are stored under its new index, and a known key changes nothing |
| HashSingleText.InsertKeyOutputs | tsl/src/nodes/vector_agg/hash_single_text.c:95-107 | inserting a key keeps every key's stored bytes fingerprinting back to it, and the null key's entry intact |
| HashSingleText.DictionaryEntries | tsl/src/nodes/vector_agg/hash_single_text.c:273-281 | entry d of the pass is the bytes of dictionary entry d |
| HashSingleText.HashedEntries | tsl/src/nodes/vector_agg/hash_single_text.c:183-238 | an entry is hashed exactly when there is no filter or some passing row points at it; null rows count in the source's filter (`skipNullRows` false) and not in the corrected one |
| HashSingleText.HashEntries | tsl/src/nodes/vector_agg/hash_single_text.c:273-281 | one index per entry; the last used index grows by at most one per entry; nothing but the keys changes |
| HashSingleText.HashEntriesStable | tsl/src/nodes/vector_agg/hash_single_text.c:269-281 | keys already in the table keep their index, new keys take consecutive indices after the last used one, and the table stays injective |
| HashSingleText.HashEntriesTable | tsl/src/nodes/vector_agg/hash_single_text.c:273-281 | the pass's table is the lookup-or-insert fold of the hashed entries' keys |
| HashSingleText.HashEntriesIndices | tsl/src/nodes/vector_agg/hash_single_text.c:278-281 | a hashed entry's key is in the table and its slot holds that key's index; any other slot holds 0 |
| HashSingleText.HashEntriesNewKeys | tsl/src/nodes/vector_agg/hash_single_text.c:179-238 | every key the pass adds is some hashed entry's key |
| HashSingleText.HashEntriesOutputs | tsl/src/nodes/vector_agg/hash_single_text.c:95-107 | the pass keeps the table grown from the old one and the output keys and null key consistent with it |
| HashSingleText.AddNullKey | tsl/src/nodes/vector_agg/hash_single_text.c:289-293 | a passing null with no null index yet takes `++last_used_key_index` with no output key; otherwise nothing changes |
| HashSingleText.AddNullKeyOk | tsl/src/nodes/vector_agg/hash_single_text.c:289-293 | the null key's index collides with no table key, and the table stays dense |
| HashSingleText.GrownRows | tsl/src/nodes/vector_agg/hash_single_text.c:302-330 | the row count never shrinks, is kept while the last index is below it, and otherwise grows to hold the last index |
| HashSingleText.InitNewKeys | tsl/src/nodes/vector_agg/hash_single_text.c:300-331 | when the pass added keys, every arena is reallocated to the grown size, `agg_init` covers exactly the slots `first + 1 .. last`, the older slots are kept and the rest hold no state; otherwise the arenas are unchanged |
| HashSingleText.InitNewKeysInitialized | tsl/src/nodes/vector_agg/hash_single_text.c:313-320 | after initialisation every slot up to the last used index is initialised |
| HashSingleText.InitNewKeysLoop | tsl/src/nodes/vector_agg/hash_single_text.c:300-331 | the loop over the aggregates gives `InitNewKeys` |
| HashSingleText.NewKeysInitialized | tsl/src/nodes/vector_agg/hash_single_text.c:300-331 | the arenas have a slot for every used index, and each is initialised |
| HashSingleText.PrepareKeepsStates | tsl/src/nodes/vector_agg/hash_single_text.c:300-331 | with either filter, preparing a batch keeps the states of every index handed out before it, and every index it hands out has a freshly initialised state |
| HashSingleText.PrepareOk | tsl/src/nodes/vector_agg/hash_single_text.c:128-334 | with either filter, preparing a batch keeps the state invariant: dense table, consistent null and output keys, arenas covering and initialising every used index |
| HashSingleText.DictionaryRowsAgree | tsl/src/nodes/vector_agg/hash_single_text.c:336-361 | with either filter, after the dictionary pass every passing row gets a non-zero index: a valid row gets the table's index for its own key, a null row the null key's index |
| HashSingleText.NoGroupWithoutRows | tsl/src/nodes/vector_agg/hash_single_text.c:179-181 | corrected filter: with a filter, every key the pass adds is the key of some passing, valid row |
| HashSingleText.NewKeysFromPassingRows | tsl/src/nodes/vector_agg/hash_single_text.c:183-238 | with a batch filter and either dictionary filter, every key the pass adds is the key of the dictionary entry some passing row points at |
| HashSingleText.NullRowMarksEntryAsWritten | tsl/src/nodes/vector_agg/hash_single_text.c:196-212 | with the source's filter, a null passing row marks its entry, so an entry no valid passing row uses gets hashed; the corrected filter leaves it out |
| HashSingleText.HashDictionary | tsl/src/nodes/vector_agg/hash_single_text.c:273-281 | for any precomputed filter, exactly the entries it lets through (all of them without one) are looked up or inserted in order, as `HashEntries` says |
| HashSingleText.PrepareBatch | tsl/src/nodes/vector_agg/hash_single_text.c:128-334 | the steps in the source's order, with the dictionary filter built from the filter bits alone as the source builds it, give `Prepare` with the source's filter |
| HashSingleText.TextPolicy.constructor | tsl/src/nodes/vector_agg/grouping_policy_hash.c:90-103 | an empty policy with 1000 uninitialised slots per aggregate satisfies the invariant |
| HashSingleText.TextPolicy.PrepareForBatch | tsl/src/nodes/vector_agg/hash_single_text.c:128-334 | the fields become `Prepare` of the old ones with the source's dictionary filter, and the invariant is kept |
| HashSingleText.TextPolicy.TranslateOffsets | tsl/src/nodes/vector_agg/hash_single_text.c:336-361 | each row in the range gets its entry's key index, or the null key's index if it is null; the rest of the buffer is unchanged |

## Left out

- UMASH (`umash_fprint`) is not part of this model. The fingerprint function is a parameter (`HashSingleText.Fprint`), fixed when a `TextPolicy` is created.
- `hash_table_functions_impl.c` (the per-row hashing loop of the newer policy), `hash_single_output_key_helper.c` (`single_text_alloc_output_keys`, key emission) and `lib/simplehash.h` are not part of this model.
  - The hash table is an abstract lookup-or-insert map (`KeyIndex`).
  - Its iteration order is the `order` parameter of `DoEmit`.
  - `hash64` appears only in known-answer lemmas.
- HashSingleText.InsertKey: lookup-or-insert of one key on the abstract map. The newer policy's dispatch per row, per range and per validity, and its use of `batch_filter` for a non-dictionary batch, are not modelled.
- HashSingleText.TextPolicy.constructor: the newer policy's structure and its creation are not part of this model. The initial arena size of 1000 is taken from `create_grouping_policy_hash`.
- The aggregate functions (`agg_init`, `agg_many`, `agg_many_scalar`, `agg_const`, `agg_emit`) are external.
  - A state records only whether it was initialised and the inputs it absorbed.
  - Aggregate.ComputeSingleAggregate: `agg_many` and `agg_many_scalar` are taken to absorb what the `agg_const` loop absorbs. Only that loop is spelled out.
- HashSingleText.MarkUsedEntries: the source builds `tmp` inside the buffer of `key_index_for_dict` and then clears that buffer. The model keeps the two apart, so the aliasing is not captured.
- The 16-bit width of dictionary indices, the 32-bit key indices and the `int16` attribute offsets are unbounded integers here. Every index that arises fits those widths.
- Memory contexts, `palloc`/`pfree`, `MemoryContextReset` of the extra-data context, `DEBUG_PRINT`, `EXPLAIN` names and the statistic printout are not modelled.
- GroupingPolicyHash.BatchStep, GroupingPolicyHash.ArenaStage, GroupingPolicyHash.HashPolicy.AddBatch: the first initialised slot is the corrected `LastInitialized`. The as-written choice is kept beside it (see Findings).
- GroupingPolicyHash.HashPolicy.DoEmit: the order of a new round is a parameter, and the model does not reproduce simplehash's bucket order.
- HashSingleText.Payload: only the 4-byte varlena header is modelled. Short (1-byte) headers and TOAST are not.
- ArrowTts.BuildAttributeOffsetMap:
  - `namestrcmp` is modelled as string equality.
  - The `Assert` that a count column exists is not modelled. The model returns `InvalidAttrNumber` when none exists.
- `Assert(config.single_key.decompression_type = DT_ArrowTextDict)` at `hash_single_text.c:273` assigns instead of comparing. It has no effect outside assertion builds and is not modelled.

## Findings

The batch steps and the policy classes follow the code as written for
the second and third findings: `RowKeyOf` reads 2- and 4-byte Arrow keys
zero-extended, and the text policy's dictionary filter counts null rows.
The corrected halves (`GetKey`, the `skipNullRows` filter) are defined
beside them, and the intended property is proved about each. For the first
finding the model uses the corrected rule, as recorded under "Left out".

| source | as written | input that shows it | evidently intended | confidence | as-written member | corrected member |
|---|---|---|---|---|---|---|
| tsl/src/nodes/vector_agg/grouping_policy_hash.c:348-349 | the first slot to initialise is 1 whenever the table is empty, so the null-key slot is re-initialised by every batch that starts with an empty table, even after earlier batches aggregated null keys into it | two batches of one row each whose key is null, aggregated with `count(*)`: the null group ends with one input instead of two | initialise slot 1 only when neither a key nor the null key has been seen since the last reset | not executed | GroupingPolicyHash.NullGroupCountExample | GroupingPolicyHash.NullGroupAfterBatch |
| tsl/src/nodes/vector_agg/grouping_policy_hash.c:253 | a 2- or 4-byte Arrow key is `memcpy`d into a zeroed Datum (zero-extended), while a scalar key is the sign-extended `Int16GetDatum`/`Int32GetDatum` | the 2-byte value -1: key 0xFFFF from an Arrow batch, 0xFFFFFFFFFFFFFFFF from a scalar batch, so two groups for one value | read the element as the Datum its type's `IntNGetDatum` makes, as `single_fixed_key_impl.c` does with `CTYPE` | not executed | GroupingPolicyHash.ArrowKeySplitsGroupsAsWritten | GroupingPolicyHash.ArrowAndScalarKeysAgree |
| tsl/src/nodes/vector_agg/hash_single_text.c:196-212 | the dictionary filter marks an entry for every row whose filter bit is set, null rows included | dictionary `["a", "b"]`, indices `[0, 1]`, row 1 null, both rows pass: entry "b" gets a key index and initialised states although no row has that key | mark an entry only for rows that pass the filter and are not null | not executed | HashSingleText.NullRowMarksEntryAsWritten | HashSingleText.NoGroupWithoutRows |
