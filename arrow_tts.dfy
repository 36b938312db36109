/**
 * Helpers of the Arrow tuple-table slot (`arrow_tts.h`): the bit-packing
 * that stores the index of a row inside a compressed tuple in the top ten
 * bits of a heap TID's block number, and the map from the attributes of a
 * non-compressed relation to those of its compressed relation.
 */
module ArrowTts {
  import opened Wrappers

  /** `ItemPointerData`: a 32-bit block number and a 16-bit line offset. */
  datatype ItemPointer = ItemPointer(block: bv32, offset: bv16)

  /** `InvalidTupleIndex`: a slot whose child tuple is not compressed. */
  const InvalidTupleIndex: bv16 := 0
  /** `MaxCompressedBlockNumber`: the 22 bits left for the block number. */
  const MaxCompressedBlockNumber: bv32 := 0x3FFFFF

  /**
   * `tid_to_compressed_tid`: the low ten bits of the tuple index go into
   * bits 22..31 of the block number, the block number (which must fit in
   * 22 bits) into bits 0..21, and the offset is kept.
   */
  function TidToCompressedTid(tid: ItemPointer, tupleIndex: bv16): (r: ItemPointer)
    requires tid.block <= MaxCompressedBlockNumber
    ensures r.offset == tid.offset
    ensures r.block & 0x3FFFFF == tid.block
    ensures r.block >> 22 == (tupleIndex & 0x3FF) as bv32
  {
    ItemPointer((((tupleIndex & 0x3FF) as bv32) << 22) | tid.block, tid.offset)
  }

  /**
   * `compressed_tid_to_tid`: the top ten bits of the block number are the
   * tuple index, which is below 1024; the low 22 bits are the original
   * block number; the offset is kept.
   */
  function CompressedTidToTid(tid: ItemPointer): (r: (bv16, ItemPointer))
    ensures r.0 < 1024
    ensures r.0 as bv32 == tid.block >> 22
    ensures r.1 == ItemPointer(tid.block & 0x3FFFFF, tid.offset)
    ensures r.1.block <= MaxCompressedBlockNumber
  {
    ((tid.block >> 22) as bv16, ItemPointer(tid.block & 0x3FFFFF, tid.offset))
  }

  /** `is_compressed_tid`: some of the top ten bits of the block number are set. */
  predicate IsCompressedTid(tid: ItemPointer)
  {
    (tid.block >> 22) != 0
  }

  /**
   * Decoding an encoded TID gives back the TID and the tuple index cut to
   * ten bits.
   */
  lemma {:induction false} CompressedTidRoundTrip(tid: ItemPointer, tupleIndex: bv16)
    requires tid.block <= MaxCompressedBlockNumber
    ensures CompressedTidToTid(TidToCompressedTid(tid, tupleIndex)) == (tupleIndex & 0x3FF, tid)
  {
    var c := TidToCompressedTid(tid, tupleIndex);
    var d := CompressedTidToTid(c);
    assert d.0 as bv32 == (tupleIndex & 0x3FF) as bv32;
    Bv16Bv32RoundTrip(d.0);
    Bv16Bv32RoundTrip(tupleIndex & 0x3FF);
  }

  /** Widening a 16-bit word to 32 bits loses nothing. */
  lemma {:induction false} Bv16Bv32RoundTrip(x: bv16)
    ensures (x as bv32) as bv16 == x
  {
  }

  /** Every TID is the encoding of its own decoding. */
  lemma {:induction false} TidFromParts(tid: ItemPointer)
    ensures var d := CompressedTidToTid(tid);
            TidToCompressedTid(d.1, d.0) == tid
  {
    var d := CompressedTidToTid(tid);
    assert d == ((tid.block >> 22) as bv16, ItemPointer(tid.block & 0x3FFFFF, tid.offset));
    EncodeParts(tid);
  }

  lemma {:induction false} EncodeParts(tid: ItemPointer)
    ensures TidToCompressedTid(ItemPointer(tid.block & 0x3FFFFF, tid.offset), (tid.block >> 22) as bv16) == tid
  {
    BlockSplit(tid.block);
  }

  lemma {:induction false} BlockSplit(b: bv32)
    ensures ((((b >> 22) as bv16 & 0x3FF) as bv32) << 22) | (b & 0x3FFFFF) == b
  {
  }

  /**
   * An encoded TID is a compressed TID exactly when the ten bits of the
   * tuple index it carries are not all zero: indices 1..1023 give a
   * compressed TID, `InvalidTupleIndex` a plain one.
   */
  lemma {:induction false} EncodedIsCompressed(tid: ItemPointer, tupleIndex: bv16)
    requires tid.block <= MaxCompressedBlockNumber
    ensures IsCompressedTid(TidToCompressedTid(tid, tupleIndex)) <==> tupleIndex & 0x3FF != 0
    ensures 1 <= tupleIndex <= 1023 ==> IsCompressedTid(TidToCompressedTid(tid, tupleIndex))
    ensures !IsCompressedTid(TidToCompressedTid(tid, InvalidTupleIndex))
  {
    LowBitsOfSmall(tupleIndex);
  }

  lemma {:induction false} LowBitsOfSmall(x: bv16)
    ensures 1 <= x <= 1023 ==> x & 0x3FF == x
    ensures (x & 0x3FF) as bv32 == 0 <==> x & 0x3FF == 0
  {
  }

  /** A plain TID (block number within 22 bits) is not a compressed TID. */
  lemma {:induction false} PlainTidNotCompressed(tid: ItemPointer)
    requires tid.block <= MaxCompressedBlockNumber
    ensures !IsCompressedTid(tid)
    ensures CompressedTidToTid(tid) == (InvalidTupleIndex, tid)
  {
  }

  // ---------------------------------------------------------------------
  // The attribute offset map

  /** One attribute of a tuple descriptor: name, whether dropped, and `attnum`. */
  datatype Attribute = Attribute(name: string, dropped: bool, attnum: int)

  /**
   * `COMPRESSION_COLUMN_METADATA_COUNT_NAME`, the compressed relation's
   * column holding the number of rows of a compressed tuple.
   */
  const CountColumnName: string := "_ts_meta_count"

  /** `InvalidAttrNumber`. */
  const InvalidAttrNumber: int := 0

  /** `cattr` can stand for an attribute named `name`: not dropped, same name. */
  predicate Matches(cattr: Attribute, name: string)
  {
    !cattr.dropped && cattr.name == name
  }

  /** Some compressed attribute matches `name`. */
  predicate HasMatch(cdesc: seq<Attribute>, name: string)
  {
    exists j :: 0 <= j < |cdesc| && Matches(cdesc[j], name)
  }

  /** The position of the first compressed attribute from `k` on that matches `name`. */
  function FirstMatchFrom(cdesc: seq<Attribute>, name: string, k: nat): (j: nat)
    requires k <= |cdesc| && exists j :: k <= j < |cdesc| && Matches(cdesc[j], name)
    ensures k <= j < |cdesc| && Matches(cdesc[j], name)
    ensures forall i :: k <= i < j ==> !Matches(cdesc[i], name)
    decreases |cdesc| - k
  {
    if Matches(cdesc[k], name) then k else FirstMatchFrom(cdesc, name, k + 1)
  }

  /** The position of the first compressed attribute that matches `name`. */
  function FirstMatch(cdesc: seq<Attribute>, name: string): (j: nat)
    requires HasMatch(cdesc, name)
    ensures j < |cdesc| && Matches(cdesc[j], name)
    ensures forall i :: 0 <= i < j ==> !Matches(cdesc[i], name)
  {
    FirstMatchFrom(cdesc, name, 0)
  }

  /** The first compressed attribute named like the count column, dropped or not. */
  predicate IsCountColumn(cdesc: seq<Attribute>, j: nat)
  {
    j < |cdesc| && cdesc[j].name == CountColumnName
    && forall i :: 0 <= i < j ==> cdesc[i].name != CountColumnName
  }

  /** The offsets of the attributes, and `*count_attno` when it was asked for. */
  datatype OffsetMap = OffsetMap(offsets: seq<int>, countAttno: Option<int>)

  /**
   * `build_attribute_offset_map`: every dropped attribute maps to -1, every
   * other one to the attribute offset (`attnum - 1`) of the first
   * compressed attribute that is not dropped and has its name; an attribute
   * without one raises "missing attribute in compressed relation". When the
   * count attribute number is asked for, it is the `attnum` of the first
   * compressed attribute named like the count column (dropped ones
   * included), or `InvalidAttrNumber` if there is none.
   */
  method BuildAttributeOffsetMap(desc: seq<Attribute>, cdesc: seq<Attribute>, wantCount: bool)
    returns (res: Result<OffsetMap, string>)
    ensures res.Success? <==> forall i :: 0 <= i < |desc| && !desc[i].dropped ==> HasMatch(cdesc, desc[i].name)
    ensures res.Failure? ==> res.error == "missing attribute in compressed relation"
    ensures res.Success? ==>
              && |res.value.offsets| == |desc|
              && forall i :: 0 <= i < |desc| ==>
                   res.value.offsets[i]
                   == if desc[i].dropped then -1 else cdesc[FirstMatch(cdesc, desc[i].name)].attnum - 1
    ensures res.Success? ==> (res.value.countAttno.Some? <==> wantCount)
    ensures res.Success? && wantCount ==>
              || (exists j :: 0 <= j < |cdesc| && IsCountColumn(cdesc, j) && res.value.countAttno.value == cdesc[j].attnum)
              || (res.value.countAttno.value == InvalidAttrNumber
                  && forall j :: 0 <= j < |cdesc| ==> cdesc[j].name != CountColumnName)
  {
    var map_ := new int[|desc|](_ => 0);
    var i := 0;
    while i < |desc|
      invariant i <= |desc|
      invariant forall k :: 0 <= k < i && !desc[k].dropped ==> HasMatch(cdesc, desc[k].name)
      invariant forall k :: 0 <= k < i ==>
                  map_[k] == if desc[k].dropped then -1 else cdesc[FirstMatch(cdesc, desc[k].name)].attnum - 1
    {
      if desc[i].dropped {
        map_[i] := -1;
      } else {
        // The inner loop stops at the first match, or runs off the end.
        var j := 0;
        while j < |cdesc| && !Matches(cdesc[j], desc[i].name)
          invariant j <= |cdesc|
          invariant forall k :: 0 <= k < j ==> !Matches(cdesc[k], desc[i].name)
        {
          j := j + 1;
        }
        if j == |cdesc| {
          return Failure("missing attribute in compressed relation");
        }
        map_[i] := cdesc[j].attnum - 1;
      }
      i := i + 1;
    }
    var countAttno: Option<int> := None;
    if wantCount {
      var j := 0;
      while j < |cdesc| && cdesc[j].name != CountColumnName
        invariant j <= |cdesc|
        invariant forall k :: 0 <= k < j ==> cdesc[k].name != CountColumnName
      {
        j := j + 1;
      }
      if j < |cdesc| {
        assert IsCountColumn(cdesc, j);
        countAttno := Some(cdesc[j].attnum);
      } else {
        countAttno := Some(InvalidAttrNumber);
      }
    }
    res := Success(OffsetMap(map_[..], countAttno));
  }
}
