/**
 * The bit-packed records of the strobemer index: a reference randstrobe occurrence
 * (24-bit reference index and 8-bit strobe-2 offset in one 32-bit word), the two-variant
 * hash-map entry (direct or indirect, told apart by bit 31 of the count word), and the
 * accessors of the index's flat vector of (hash, position, packed) records, whose hash
 * carries the occurrence count in its top 28 bits.
 *
 * Shifts and masks on unsigned words are written as division and remainder by powers
 * of two, which is what they compute on non-negative values.
 */
module IndexRecords {
  import opened Base

  /** `1 << bit_alloc` with `bit_alloc` = 8: the low 8 bits of the packed word hold the strobe-2 offset. */
  const OffsetLimit: nat := 256
  /** Reference indices fit in the remaining 24 bits. */
  const ReferenceLimit: nat := 0x100_0000
  /** `2^(64 - N)` with `N` = 28: the top 28 hash bits hold the count, and `>> (64 - N)` divides by this. */
  const CountShift: nat := 0x10_0000_0000
  /** `-1` converted to `uint64_t`: what `get_hash` returns outside the vector. */
  const NoHash: u64 := 0xFFFF_FFFF_FFFF_FFFF

  // ---------------------------------------------------------------- RefRandstrobe

  /** Where a randstrobe occurs: the first strobe's position and the packed word. */
  datatype RefRandstrobe = RefRandstrobe(position: u32, packed: u32)
  {
    /** `m_packed >> bit_alloc`. */
    function ReferenceIndex(): (r: nat)
      ensures r < ReferenceLimit
    {
      packed / OffsetLimit
    }

    /** `m_packed & mask`. */
    function Strobe2Offset(): (r: nat)
      ensures r < OffsetLimit
    {
      packed % OffsetLimit
    }
  }

  /** `(reference_index << 8) | offset` for a reference index and offset that fit their fields. */
  function Pack(referenceIndex: nat, offset: nat): (p: u32)
    requires referenceIndex < ReferenceLimit && offset < OffsetLimit
  {
    referenceIndex * OffsetLimit + offset
  }

  /** Packing then unpacking gives back both fields. */
  lemma PackRoundTrip(position: u32, referenceIndex: nat, offset: nat)
    requires referenceIndex < ReferenceLimit && offset < OffsetLimit
    ensures RefRandstrobe(position, Pack(referenceIndex, offset)).ReferenceIndex() == referenceIndex
    ensures RefRandstrobe(position, Pack(referenceIndex, offset)).Strobe2Offset() == offset
  {
  }

  /** Unpacking then packing gives back the word: the two fields cover all 32 bits. */
  lemma UnpackRoundTrip(r: RefRandstrobe)
    ensures Pack(r.ReferenceIndex(), r.Strobe2Offset()) == r.packed
  {
  }

  // ---------------------------------------------------------------- RandstrobeMapEntry

  /** Bit 31 of `m_count`, the direct/indirect discriminator. */
  const DirectFlag: nat := 0x8000_0000

  /**
   * A hash-map entry. Direct: the single occurrence itself, `m_offset` being its position and
   * `m_count` its packed word with bit 31 set. Indirect: an interval `m_offset`, `m_count` of
   * the flat occurrence vector.
   */
  datatype RandstrobeMapEntry = RandstrobeMapEntry(mOffset: u32, mCount: u32)
  {
    /** `m_count & 0x8000'0000`, read as a truth value. */
    predicate IsDirect()
    {
      (mCount / DirectFlag) % 2 == 1
    }

    /** One occurrence for a direct entry, `m_count` otherwise; never has bit 31 set. */
    function Count(): (r: u32)
      ensures r < DirectFlag
      ensures IsDirect() ==> r == 1
      ensures !IsDirect() ==> r == mCount
    {
      if IsDirect() then 1 else mCount
    }

    /** The interval start of an indirect entry (the source asserts the entry is indirect). */
    function Offset(): (r: u32)
      requires !IsDirect()
      ensures SetOffset(r) == this
    {
      mOffset
    }

    /** The occurrence of a direct entry: bit 31 of the count word cleared. */
    function AsRefRandstrobe(): (r: RefRandstrobe)
      requires IsDirect()
      ensures r.position == mOffset
      ensures r.packed < DirectFlag && r.packed + DirectFlag == mCount
    {
      RefRandstrobe(mOffset, mCount % DirectFlag)
    }

    /** Replaces the count word; the offset word is kept. */
    function SetCount(count: u32): (r: RandstrobeMapEntry)
      ensures r.mOffset == mOffset
      ensures r.IsDirect() <==> count >= DirectFlag
      ensures count < DirectFlag ==> r.Count() == count
      ensures count >= DirectFlag ==> r.AsRefRandstrobe() == RefRandstrobe(mOffset, count - DirectFlag)
    {
      this.(mCount := count)
    }

    /** Replaces the offset of an indirect entry; the count and the variant are kept. */
    function SetOffset(offset: u32): (r: RandstrobeMapEntry)
      requires !IsDirect()
      ensures !r.IsDirect() && r.mOffset == offset
      ensures r.Count() == Count() && r.mCount == mCount
    {
      this.(mOffset := offset)
    }
  }

  /** Bit 31 of a 32-bit word is set exactly when the word is at least 2^31. */
  lemma IsDirectIffHighBit(e: RandstrobeMapEntry)
    ensures e.IsDirect() <==> e.mCount >= DirectFlag
  {
  }

  /** The direct entry holding one occurrence whose packed word leaves bit 31 free: `packed | 0x8000'0000`. */
  function DirectEntry(r: RefRandstrobe): RandstrobeMapEntry
    requires r.packed < DirectFlag
  {
    RandstrobeMapEntry(r.position, r.packed + DirectFlag)
  }

  /** A direct entry gives back the occurrence it was built from, with count 1. */
  lemma DirectRoundTrip(r: RefRandstrobe)
    requires r.packed < DirectFlag
    ensures DirectEntry(r).IsDirect()
    ensures DirectEntry(r).Count() == 1
    ensures DirectEntry(r).AsRefRandstrobe() == r
    ensures DirectEntry(r).AsRefRandstrobe().ReferenceIndex() == r.ReferenceIndex()
    ensures DirectEntry(r).AsRefRandstrobe().Strobe2Offset() == r.Strobe2Offset()
  {
  }

  /** An indirect entry with a count below 2^31 gives back its interval. */
  lemma IndirectRoundTrip(offset: u32, count: u32)
    requires count < DirectFlag
    ensures !RandstrobeMapEntry(offset, count).IsDirect()
    ensures RandstrobeMapEntry(offset, count).Offset() == offset
    ensures RandstrobeMapEntry(offset, count).Count() == count
  {
  }

  /**
   * The packed word has 24 reference-index bits but a direct entry keeps only 31 bits of it:
   * an occurrence on reference 2^23 comes back from a direct entry on reference 0.
   */
  lemma DirectEntryKeepsOnly23ReferenceBits()
    ensures var occ := RefRandstrobe(7, Pack(0x80_0000, 5));
            var e := RandstrobeMapEntry(occ.position, occ.packed);  // `packed | 0x8000'0000` leaves it unchanged
            e.IsDirect() && e.AsRefRandstrobe().ReferenceIndex() == 0 && occ.ReferenceIndex() == 0x80_0000
  {
  }

  // ---------------------------------------------------------------- StrobemerIndex accessors

  /** An element of the index's flat vector: hash (count in its top 28 bits), position, packed word. */
  datatype RefRandstrobeWithHash = RefRandstrobeWithHash(hash: u64, position: u32, packed: u32)

  /**
   * The index as the mapping code sees it: the seed length `k`, the filter cutoff, the flat vector
   * and the hash lookup that `find` performs (its implementation is not part of this model, so it is
   * given as a finite map from hash to vector position).
   */
  datatype StrobemerIndex = StrobemerIndex(
    k: int,
    filterCutoff: u32,
    entries: seq<RefRandstrobeWithHash>,
    lookup: map<u64, u32>)
  {
    /** `find`: a vector position, or nothing (the source's -1) for an absent hash. */
    function Find(hash: u64): (r: Option<nat>)
      ensures r.Some? <==> hash in lookup
    {
      if hash in lookup then Some(lookup[hash]) else None
    }

    /** The stored hash at an in-range position, and the all-ones sentinel elsewhere. */
    function GetHash(position: nat): u64
    {
      if position < |entries| then entries[position].hash else NoHash
    }

    /** The occurrence stored at a position, as a `RefRandstrobe`. */
    function Occurrence(position: nat): RefRandstrobe
      requires position < |entries|
    {
      RefRandstrobe(entries[position].position, entries[position].packed)
    }

    function GetStrob1Position(position: nat): u32
      requires position < |entries|
    {
      entries[position].position
    }

    /** `packed & mask`: the same 8-bit split as `RefRandstrobe`. */
    function Strobe2Offset(position: nat): (r: nat)
      requires position < |entries|
      ensures r < OffsetLimit
      ensures r == Occurrence(position).Strobe2Offset()
    {
      entries[position].packed % OffsetLimit
    }

    /** `packed >> bit_alloc`: the same 8-bit split as `RefRandstrobe`. */
    function ReferenceIndex(position: nat): (r: nat)
      requires position < |entries|
      ensures r < ReferenceLimit
      ensures r == Occurrence(position).ReferenceIndex()
    {
      entries[position].packed / OffsetLimit
    }

    /** `hash >> (64 - N)`: the top 28 bits of the stored hash. */
    function GetCount(position: nat): (r: nat)
      requires position < |entries|
      ensures r < 0x1000_0000
      ensures r == GetHash(position) / CountShift
    {
      entries[position].hash / CountShift
    }

    /**
     * Positions are `unsigned int`, so the vector has fewer than 2^32 entries (and `find`'s -1,
     * which is 2^32 - 1 as an `unsigned int`, is never a position); every position `find` can
     * return starts a run of `count` entries inside the vector.
     */
    predicate WellFormed()
    {
      && |entries| < TwoTo32
      && forall h :: h in lookup ==>
        lookup[h] < |entries| && lookup[h] + GetCount(lookup[h]) <= |entries|
    }
  }

  /** A hash whose top 28 bits are `count` (and low 36 bits anything) yields `count`. */
  lemma CountInHashRoundTrip(idx: StrobemerIndex, position: nat, count: nat, low: nat)
    requires position < |idx.entries|
    requires count < 0x1000_0000 && low < CountShift
    requires idx.entries[position].hash == count * CountShift + low
    ensures idx.GetCount(position) == count
  {
  }

  /** `get_hash` returns the stored hash in range and the sentinel 2^64 - 1 out of range. */
  lemma GetHashSentinel(idx: StrobemerIndex, position: nat)
    ensures position >= |idx.entries| ==> idx.GetHash(position) == TwoTo64 - 1
    ensures position < |idx.entries| ==> idx.GetHash(position) == idx.entries[position].hash
  {
  }

  /** An occurrence packed into a vector entry is read back through the index accessors. */
  lemma IndexAccessorsRoundTrip(idx: StrobemerIndex, position: nat, start: u32, referenceIndex: nat, offset: nat)
    requires position < |idx.entries|
    requires referenceIndex < ReferenceLimit && offset < OffsetLimit
    requires idx.entries[position].position == start
    requires idx.entries[position].packed == Pack(referenceIndex, offset)
    ensures idx.GetStrob1Position(position) == start
    ensures idx.ReferenceIndex(position) == referenceIndex
    ensures idx.Strobe2Offset(position) == offset
  {
    PackRoundTrip(start, referenceIndex, offset);
  }
}
