/**
 * Sleb's state and operations as functions on values. The state is the
 * metadata page (255 records), the 128-bit bitmap at the start of each
 * data page, and the two bucket arrays. Each function follows the
 * source's statements in order; a panic is `Panics` (or `Panic`), and a
 * bucket loop that would never end is `Hangs`.
 */
module SlebSpec {
  import opened Common
  import opened Bits
  import opened Buddy
  import opened Sleb

  /** One 16-byte record: the packed `SlebBits` word and the medium bitmap. */
  datatype SlebMetadata = SlebMetadata(bits: int, extraBits: seq<bool>)

  /** How a call that contains a loop ends. */
  datatype Run<T> = Returns(value: T) | Panics | Hangs

  datatype SlebState = SlebState(
    base: int,
    metadata: seq<SlebMetadata>,
    tinyBitfields: seq<seq<bool>>,
    tinyBuckets: seq<int>,
    mediumBuckets: seq<int>)
  {
    ghost predicate Valid() {
      && 0 < base && base % PAGESIZE == 0 && base + ONE_MIB <= U64_LIMIT
      && |metadata| == ENTRIES_PER_PAGE
      && (forall i :: 0 <= i < ENTRIES_PER_PAGE ==> 0 <= metadata[i].bits < U64_LIMIT && |metadata[i].extraBits| == 64)
      && |tinyBitfields| == ENTRIES_PER_PAGE
      && (forall i :: 0 <= i < ENTRIES_PER_PAGE ==> |tinyBitfields[i]| == TINY_BITS)
      && |tinyBuckets| == TINY_BUCKETS && |mediumBuckets| == MEDIUM_BUCKETS
      && (forall k :: 0 <= k < TINY_BUCKETS ==> 0 <= tinyBuckets[k] < U32_LIMIT)
      && (forall k :: 0 <= k < MEDIUM_BUCKETS ==> 0 <= mediumBuckets[k] < U32_LIMIT)
    }
  }

  /** The class a record's tag decodes to. */
  function TypeOf(m: SlebMetadata): MetadataType
    requires 0 <= m.bits
  {
    DecodeType(SlebType(m.bits))
  }

  /**
   * `SlebMetadataPage::init` on the block at `base`: the metadata page is
   * zero-filled, so every record is Empty with next and previous index 0;
   * the buckets start empty. `init` does not touch the data pages; the
   * model starts their bitmaps clear, which no operation can tell apart
   * from any other start: a page's bitmap is read only once its record is
   * Tiny32, `alloc_tiny` clears the bitmap when it claims an Empty record
   * (sleb.rs:120-123), and `free` panics on an Empty record.
   */
  function InitState(base: int): (s: SlebState)
    requires 0 < base && base % PAGESIZE == 0 && base + ONE_MIB <= U64_LIMIT
    ensures s.Valid()
    ensures forall i :: 0 <= i < ENTRIES_PER_PAGE ==> TypeOf(s.metadata[i]).Empty? && NextIndex(s.metadata[i].bits) == 0
    ensures s.tinyBuckets[0] == BUCKET_INDEX_NONE
    ensures forall k :: 0 <= k < MEDIUM_BUCKETS ==> s.mediumBuckets[k] == BUCKET_INDEX_NONE
  {
    SlebState(base,
              seq(ENTRIES_PER_PAGE, _ => SlebMetadata(0, Zeros(64))),
              seq(ENTRIES_PER_PAGE, _ => Zeros(TINY_BITS)),
              [BUCKET_INDEX_NONE],
              seq(MEDIUM_BUCKETS, _ => BUCKET_INDEX_NONE))
  }

  ghost predicate RecordsValid(md: seq<SlebMetadata>)
  {
    forall i :: 0 <= i < |md| ==> 0 <= md[i].bits < U64_LIMIT
  }

  /** The first record at or after `from` whose tag is Empty. */
  function FirstEmpty(md: seq<SlebMetadata>, from: nat): (r: Option<int>)
    requires RecordsValid(md)
    ensures r.Some? ==> from <= r.value < |md| && TypeOf(md[r.value]).Empty?
    ensures forall i :: from <= i < |md| && (r.None? || i < r.value) ==> !TypeOf(md[i]).Empty?
    decreases |md| - from
  {
    if from >= |md| then None
    else if TypeOf(md[from]).Empty? then Some(from)
    else FirstEmpty(md, from + 1)
  }

  /** `find_empty_page(t)`: retag the first Empty record with `t as u8`. */
  function FindEmptyPageSpec(s: SlebState, t: MetadataType): (r: (SlebState, Option<int>))
    requires s.Valid()
    ensures r.0.Valid()
  {
    match FirstEmpty(s.metadata, 0)
    case None => (s, None)
    case Some(i) =>
      var m := s.metadata[i];
      (s.(metadata := s.metadata[i := m.(bits := SetType(m.bits, Discriminant(t)))]), Some(i))
  }

  /** Word `i` of a tiny page's bitmap. */
  function TinyWord(bf: seq<bool>, i: nat): seq<bool>
    requires |bf| == TINY_BITS && i < 2
  {
    bf[64 * i .. 64 * i + 64]
  }

  /**
   * `TinyMetadataPage::find_free_slot` from word `i` on: take the lowest
   * clear bit of the first word that is not all ones and return the
   * address of that entry, 16 + 32 * slot bytes into the page; null when
   * both words are full. The entry array has 127 elements, so slot 127
   * panics once its bit is set.
   */
  function FindFreeSlotSpec(bf: seq<bool>, page: int, i: nat): (r: Outcome<(seq<bool>, int)>)
    requires |bf| == TINY_BITS && i <= 2
    ensures r.Ok? ==> |r.value.0| == TINY_BITS
    decreases 2 - i
  {
    if i == 2 then Ok((bf, 0))
    else
      var w := TinyWord(bf, i);
      if AllOnes(w) then FindFreeSlotSpec(bf, page, i + 1)
      else
        var slot := 64 * i + TrailingOnes(w);
        if slot >= TINY_ENTRIES then Panic
        else Ok((bf[slot := true], page + TINY_HEADER + TINY_SLOT * slot))
  }

  /**
   * A bucket loop makes at most this many passes without returning before
   * it repeats a record, after which it never returns.
   */
  const WALK_LIMIT: nat := ENTRIES_PER_PAGE + 1

  /**
   * The `while let` loop of `alloc_tiny`, at most `fuel` passes: a page
   * with a free slot ends it, a full page moves the bucket to the page's
   * next index, and an empty bucket leaves the loop.
   */
  function TinyScan(s: SlebState, bucket: int, fuel: nat): (r: Run<(SlebState, Option<int>)>)
    requires s.Valid() && 0 <= bucket < U32_LIMIT
    ensures r.Returns? ==> r.value.0.Valid()
    ensures r.Returns? ==> r.value.0.(tinyBitfields := s.tinyBitfields, tinyBuckets := s.tinyBuckets) == s
    decreases fuel
  {
    if bucket == BUCKET_INDEX_NONE then Returns((s.(tinyBuckets := [bucket]), None))
    else if fuel == 0 then Hangs
    else if bucket >= ENTRIES_PER_PAGE then Panics
    else
      match FindFreeSlotSpec(s.tinyBitfields[bucket], PagePtr(s.base, bucket), 0)
      case Panic => Panics
      case Ok((bf, slot)) =>
        if slot != 0 then
          Returns((s.(tinyBitfields := s.tinyBitfields[bucket := bf], tinyBuckets := [bucket]), Some(slot)))
        else
          TinyScan(s, NextIndex(s.metadata[bucket].bits), fuel - 1)
  }

  /** `alloc_tiny`: the bucket loop, then a fresh page whose bitmap is cleared first. */
  function AllocTinySpec(s: SlebState): (r: Run<(SlebState, int)>)
    requires s.Valid()
    ensures r.Returns? ==> r.value.0.Valid() && r.value.0.base == s.base
  {
    match TinyScan(s, s.tinyBuckets[0], WALK_LIMIT)
    case Panics => Panics
    case Hangs => Hangs
    case Returns((s1, Some(p))) => Returns((s1, p))
    case Returns((s1, None)) =>
      match FindEmptyPageSpec(s1, Tiny32)
      case (s2, None) => Returns((s2, 0))
      case (s2, Some(i)) =>
        match FindFreeSlotSpec(Zeros(TINY_BITS), PagePtr(s2.base, i), 0)
        case Panic => Panics
        case Ok((bf, p)) => Returns((s2.(tinyBitfields := s2.tinyBitfields[i := bf]), p))
  }

  /** The slot size of medium class `index`: `1 << (index + 6)`. */
  function SlotSize(index: int): int
    requires 0 <= index
  {
    Pow2(index + 6)
  }

  /** How many slots of class `index` a page holds. */
  function PageSlots(index: int): (m: nat)
    requires 0 <= index <= MEDIUM_BUCKETS
    ensures m == PAGESIZE / SlotSize(index) && 2 <= m <= 64
  {
    SlotsPerPage(index);
    [64, 32, 16, 8, 4, 2][index]
  }

  /**
   * The `while let` loop of `alloc_medium(index)`, at most `fuel` passes:
   * the lowest clear bit of the page's `extra_bits` is taken, or a full
   * page moves the bucket to the page's next index.
   */
  function MediumScan(s: SlebState, index: int, bucket: int, fuel: nat): (r: Run<(SlebState, Option<int>)>)
    requires s.Valid() && 0 <= index < MEDIUM_BUCKETS && 0 <= bucket < U32_LIMIT
    ensures r.Returns? ==> r.value.0.Valid()
    ensures r.Returns? ==> r.value.0.(metadata := s.metadata, mediumBuckets := s.mediumBuckets) == s
    decreases fuel
  {
    if bucket == BUCKET_INDEX_NONE then Returns((s.(mediumBuckets := s.mediumBuckets[index := bucket]), None))
    else if fuel == 0 then Hangs
    else if bucket >= ENTRIES_PER_PAGE then Panics
    else
      var m := s.metadata[bucket];
      var slot := TrailingOnes(m.extraBits);
      if slot < 64 then
        var md := s.metadata[bucket := m.(extraBits := m.extraBits[slot := true])];
        match TakeSlot(PagePtr(s.base, bucket), slot, SlotSize(index))
        case Panic => Panics
        case Ok(p) => Returns((s.(metadata := md, mediumBuckets := s.mediumBuckets[index := bucket]), Some(p)))
      else
        MediumScan(s, index, NextIndex(m.bits), fuel - 1)
  }

  /**
   * `alloc_medium(index)`: the bucket loop, then a fresh page with the
   * class's constant bitmap, returning its first slot. `MEDIUM_BUCKETS`
   * has five entries, so class 5 panics on the first bucket read.
   */
  function AllocMediumSpec(s: SlebState, index: int): (r: Run<(SlebState, int)>)
    requires s.Valid() && 0 <= index <= MEDIUM_BUCKETS
    ensures r.Returns? ==> r.value.0.Valid() && r.value.0.base == s.base
  {
    if index >= MEDIUM_BUCKETS then Panics
    else
      match MediumScan(s, index, s.mediumBuckets[index], WALK_LIMIT)
      case Panics => Panics
      case Hangs => Hangs
      case Returns((s1, Some(p))) => Returns((s1, p))
      case Returns((s1, None)) =>
        match FindEmptyPageSpec(s1, MediumType(index))
        case (s2, None) => Returns((s2, 0))
        case (s2, Some(i)) =>
          MediumInitialBitmap(index);
          var m := s2.metadata[i];
          var s3 := s2.(metadata := s2.metadata[i := m.(extraBits := ToBits(MediumInitialBits(index), 64))]);
          match TakeSlot(PagePtr(s3.base, i), 0, SlotSize(index))
          case Panic => Panics
          case Ok(p) => Returns((s3, p))
  }

  /** `SlebMetadataPage::alloc(size)`: dispatch on the size class; sizes above 2048 panic. */
  function AllocSpec(s: SlebState, size: int): (r: Run<(SlebState, int)>)
    requires s.Valid() && 0 <= size
    ensures r.Returns? ==> r.value.0.Valid() && r.value.0.base == s.base
  {
    match ClassOf(size)
    case TinyClass => AllocTinySpec(s)
    case MediumClass(index) => AllocMediumSpec(s, index)
    case BadSize => Panics
  }

  /**
   * The `was_full` branch of both frees: the page becomes the bucket
   * head; an old head's previous index and the page's next index are
   * linked to each other. Returns the records and the new bucket value.
   */
  function LinkPage(md: seq<SlebMetadata>, bucket: int, index: int): Outcome<(seq<SlebMetadata>, int)>
    requires |md| == ENTRIES_PER_PAGE && RecordsValid(md) && 0 <= index < ENTRIES_PER_PAGE
  {
    match BucketGet(bucket)
    case None =>
      (match BucketSet(index)
       case Panic => Panic
       case Ok(b) => Ok((md, b)))
    case Some(i) =>
      if i < 0 || i >= ENTRIES_PER_PAGE then Panic
      else
        var md1 := md[i := md[i].(bits := SetPrev(md[i].bits, index))];
        match BucketSet(index)
        case Panic => Panic
        case Ok(b) => Ok((md1[index := md1[index].(bits := SetNext(md1[index].bits, i))], b))
  }

  /** The slot both frees derive from an address: its offset in the page over 32. */
  function FreedSlot(ptr: int): int
  {
    (ptr % PAGESIZE) / TINY_SLOT
  }

  /**
   * `free_tiny(index, ptr)`: the slot's bit must be set (`debug_assert!`);
   * it is cleared, and a page whose two words were all ones becomes the
   * tiny bucket's head.
   */
  function FreeTinySpec(s: SlebState, index: int, ptr: int): Outcome<SlebState>
    requires s.Valid() && 0 <= index < ENTRIES_PER_PAGE
  {
    var slot := FreedSlot(ptr);
    var bf := s.tinyBitfields[index];
    if !bf[slot] then Panic
    else
      var wasFull := AllOnes(bf);
      var s1 := s.(tinyBitfields := s.tinyBitfields[index := bf[slot := false]]);
      if !wasFull then Ok(s1)
      else
        match LinkPage(s1.metadata, s1.tinyBuckets[0], index)
        case Panic => Panic
        case Ok((md, b)) => Ok(s1.(metadata := md, tinyBuckets := [b]))
  }

  /**
   * `free_medium(index, bucketIndex, ptr)`: the same with `extra_bits`.
   * The slot is the offset over 32 whatever the class's slot size, and
   * `1 << slot` overflows from slot 64 on.
   */
  function FreeMediumSpec(s: SlebState, index: int, bucketIndex: int, ptr: int): Outcome<SlebState>
    requires s.Valid() && 0 <= index < ENTRIES_PER_PAGE && 0 <= bucketIndex
  {
    var slot := FreedSlot(ptr);
    if slot >= 64 then Panic
    else
      var m := s.metadata[index];
      if !m.extraBits[slot] then Panic
      else
        var wasFull := AllOnes(m.extraBits);
        var md := s.metadata[index := m.(extraBits := m.extraBits[slot := false])];
        if !wasFull then Ok(s.(metadata := md))
        else if bucketIndex >= MEDIUM_BUCKETS then Panic
        else
          match LinkPage(md, s.mediumBuckets[bucketIndex], index)
          case Panic => Panic
          case Ok((md', b)) => Ok(s.(metadata := md', mediumBuckets := s.mediumBuckets[bucketIndex := b]))
  }

  /** The bucket `free` passes to `free_medium` for a decoded medium tag. */
  function FreeBucket(t: MetadataType): int
    requires !t.Empty? && !t.Tiny32?
  {
    match t
    case Medium64 => 0
    case Medium128 => 1
    case Medium256 => 2
    case Medium512 => 3
    case Medium1024 => 4
    case Medium2048 => 5
  }

  /** `SlebMetadataPage::free(ptr)`: find the record from the address and dispatch on its decoded tag. */
  function FreeSpec(s: SlebState, ptr: int): Outcome<SlebState>
    requires s.Valid()
  {
    match FreeIndex(s.base, ptr)
    case Panic => Panic
    case Ok(index) =>
      if index >= ENTRIES_PER_PAGE then Panic
      else
        var t := TypeOf(s.metadata[index]);
        if t.Empty? then Panic
        else if t.Tiny32? then FreeTinySpec(s, index, ptr)
        else FreeMediumSpec(s, index, FreeBucket(t), ptr)
  }
}
