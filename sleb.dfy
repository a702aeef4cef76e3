/**
 * The fixed layout of Sleb, the sub-page allocator: record tags and the
 * packed `SlebBits` word, bucket hints, bitmap words, size classes and
 * the address arithmetic between a record index and its data page.
 */
module Sleb {
  import opened Common
  import opened Bits
  import opened Buddy

  /** Records in the metadata page: 4096 / 16 bytes, less the 16-byte padding slot. */
  const ENTRIES_PER_PAGE: nat := 255
  const ONE_MIB: int := 0x10_0000
  const U32_LIMIT: int := 0x1_0000_0000
  /** `u32::MAX - 1` marks an empty bucket. */
  const BUCKET_INDEX_NONE: int := 0xFFFF_FFFE
  /** The buckets of the 32-byte class and of the medium classes. */
  const TINY_BUCKETS: nat := 1
  const MEDIUM_BUCKETS: nat := 5
  /** A tiny page: a 128-bit bitmap (two `u64` words), then 127 entries of 32 bytes. */
  const TINY_BITS: nat := 128
  const TINY_ENTRIES: nat := 127
  const TINY_HEADER: int := 16
  const TINY_SLOT: int := 32

  /** The record tags, in declaration order; `as u8` gives the discriminant. */
  datatype MetadataType = Empty | Tiny32 | Medium64 | Medium128 | Medium512 | Medium256 | Medium1024 | Medium2048

  /** `t as u8`: Medium512 is 4 and Medium256 is 5. */
  function Discriminant(t: MetadataType): (tag: int)
    ensures 0 <= tag < 8
    ensures (tag == 0) == t.Empty?
  {
    match t
    case Empty => 0
    case Tiny32 => 1
    case Medium64 => 2
    case Medium128 => 3
    case Medium512 => 4
    case Medium256 => 5
    case Medium1024 => 6
    case Medium2048 => 7
  }

  /** `SlebMetadata::get_type`: 4 decodes as Medium256 and 5 as Medium512. */
  function DecodeType(tag: int): MetadataType
  {
    match tag
    case 0 => Empty
    case 1 => Tiny32
    case 2 => Medium64
    case 3 => Medium128
    case 4 => Medium256
    case 5 => Medium512
    case 6 => Medium1024
    case _ => Medium2048
  }

  /** The other one of the two classes whose tags are crossed. */
  function Crossed(t: MetadataType): MetadataType
  {
    if t == Medium256 then Medium512 else if t == Medium512 then Medium256 else t
  }

  /**
   * A tag written with `set_type(t as u8)` reads back as `t`, except that
   * Medium256 and Medium512 come back as each other.
   */
  lemma TagRoundTrip(t: MetadataType)
    ensures DecodeType(Discriminant(t)) == Crossed(t)
    ensures (DecodeType(Discriminant(t)) == t) == (t != Medium256 && t != Medium512)
  {
  }

  /*
   * The `SlebBits` word: tag in bits 0-2, next index in bits 3-32,
   * previous index in bits 33-62.
   */

  const NEXT_SHIFT: int := 8
  const PREV_SHIFT: int := 0x2_0000_0000
  const TOP_SHIFT: int := 0x8000_0000_0000_0000
  const INDEX_LIMIT: int := 0x4000_0000

  function SlebType(raw: int): int
    requires 0 <= raw
  {
    raw % 8
  }

  function NextIndex(raw: int): int
    requires 0 <= raw
  {
    (raw / NEXT_SHIFT) % INDEX_LIMIT
  }

  function PrevIndex(raw: int): int
    requires 0 <= raw
  {
    (raw / PREV_SHIFT) % INDEX_LIMIT
  }

  /** Bit 63, which no field covers. */
  function TopBit(raw: int): int
    requires 0 <= raw
  {
    raw / TOP_SHIFT
  }

  /** The word holding the given field values. */
  function Pack(tag: int, next: int, prev: int, top: int): (raw: int)
    requires 0 <= tag < 8 && 0 <= next < INDEX_LIMIT && 0 <= prev < INDEX_LIMIT && 0 <= top < 2
    ensures 0 <= raw < U64_LIMIT
  {
    tag + NEXT_SHIFT * next + PREV_SHIFT * prev + TOP_SHIFT * top
  }

  /** Each field reads back what was packed: the fields do not overlap. */
  lemma PackFields(tag: int, next: int, prev: int, top: int)
    requires 0 <= tag < 8 && 0 <= next < INDEX_LIMIT && 0 <= prev < INDEX_LIMIT && 0 <= top < 2
    ensures var raw := Pack(tag, next, prev, top);
      SlebType(raw) == tag && NextIndex(raw) == next && PrevIndex(raw) == prev && TopBit(raw) == top
  {
    var raw := Pack(tag, next, prev, top);
    var hi := next + (PREV_SHIFT / NEXT_SHIFT) * prev + (TOP_SHIFT / NEXT_SHIFT) * top;
    DivModUnique(raw, NEXT_SHIFT, hi, tag);
    DivModUnique(hi, INDEX_LIMIT, prev + INDEX_LIMIT * top, next);
    var hi2 := prev + INDEX_LIMIT * top;
    DivModUnique(raw, PREV_SHIFT, hi2, tag + NEXT_SHIFT * next);
    DivModUnique(hi2, INDEX_LIMIT, top, prev);
    DivModUnique(raw, TOP_SHIFT, top, tag + NEXT_SHIFT * next + PREV_SHIFT * prev);
  }

  /** Every `u64` is the packing of its own fields. */
  lemma UnpackRaw(raw: int)
    requires 0 <= raw < U64_LIMIT
    ensures 0 <= TopBit(raw) < 2
    ensures raw == Pack(SlebType(raw), NextIndex(raw), PrevIndex(raw), TopBit(raw))
  {
    var t, q := raw % NEXT_SHIFT, raw / NEXT_SHIFT;
    var n, q2 := q % INDEX_LIMIT, q / INDEX_LIMIT;
    var p, top := q2 % INDEX_LIMIT, q2 / INDEX_LIMIT;
    assert raw == t + NEXT_SHIFT * (n + INDEX_LIMIT * (p + INDEX_LIMIT * top));
    assert raw == t + NEXT_SHIFT * n + PREV_SHIFT * p + TOP_SHIFT * (top / 2 * 2 + top % 2);
    assert top < 2;
    PackFields(t, n, p, top);
  }

  /** `set_type(v)` for a `u8` value: only the low three bits of `v` are stored. */
  function SetType(raw: int, v: int): (r: int)
    requires 0 <= raw < U64_LIMIT && 0 <= v
    ensures 0 <= r < U64_LIMIT
    ensures SlebType(r) == v % 8
    ensures NextIndex(r) == NextIndex(raw) && PrevIndex(r) == PrevIndex(raw) && TopBit(r) == TopBit(raw)
  {
    UnpackRaw(raw);
    PackFields(v % 8, NextIndex(raw), PrevIndex(raw), TopBit(raw));
    raw - SlebType(raw) + v % 8
  }

  /** `set_next(v)` for a `u32` value: only the low 30 bits of `v` are stored. */
  function SetNext(raw: int, v: int): (r: int)
    requires 0 <= raw < U64_LIMIT && 0 <= v
    ensures 0 <= r < U64_LIMIT
    ensures NextIndex(r) == v % INDEX_LIMIT
    ensures SlebType(r) == SlebType(raw) && PrevIndex(r) == PrevIndex(raw) && TopBit(r) == TopBit(raw)
  {
    UnpackRaw(raw);
    PackFields(SlebType(raw), v % INDEX_LIMIT, PrevIndex(raw), TopBit(raw));
    raw - NEXT_SHIFT * NextIndex(raw) + NEXT_SHIFT * (v % INDEX_LIMIT)
  }

  /** `set_prev(v)` for a `u32` value: only the low 30 bits of `v` are stored. */
  function SetPrev(raw: int, v: int): (r: int)
    requires 0 <= raw < U64_LIMIT && 0 <= v
    ensures 0 <= r < U64_LIMIT
    ensures PrevIndex(r) == v % INDEX_LIMIT
    ensures SlebType(r) == SlebType(raw) && NextIndex(r) == NextIndex(raw) && TopBit(r) == TopBit(raw)
  {
    UnpackRaw(raw);
    PackFields(SlebType(raw), NextIndex(raw), v % INDEX_LIMIT, TopBit(raw));
    raw - PREV_SHIFT * PrevIndex(raw) + PREV_SHIFT * (v % INDEX_LIMIT)
  }

  /** A next index read from a record never names the empty bucket. */
  lemma NextIndexNeverNone(raw: int)
    requires 0 <= raw
    ensures NextIndex(raw) != BUCKET_INDEX_NONE && 0 <= NextIndex(raw) < U32_LIMIT
  {
  }

  /*
   * `BucketIndex`
   */

  function BucketGet(b: int): Option<int>
  {
    if b == BUCKET_INDEX_NONE then None else Some(b)
  }

  /** `BucketIndex::set`: panics on the reserved value. */
  function BucketSet(v: int): Outcome<int>
  {
    if v == BUCKET_INDEX_NONE then Panic else Ok(v)
  }

  /** `get` is None exactly on the reserved value; `set` stores every other value, and `get` gives it back. */
  lemma BucketRoundTrip(v: int)
    ensures BucketGet(v).None? <==> v == BUCKET_INDEX_NONE
    ensures BucketSet(v).Ok? <==> v != BUCKET_INDEX_NONE
    ensures BucketSet(v).Ok? ==> BucketGet(BucketSet(v).value) == Some(v)
  {
  }

  /*
   * Bitmap words, least significant bit first
   */

  /** `word == u64::MAX` */
  predicate AllOnes(w: seq<bool>)
  {
    forall k :: 0 <= k < |w| ==> w[k]
  }

  /** `trailing_ones`: the index of the lowest clear bit, or the width when there is none. */
  function TrailingOnes(w: seq<bool>): (r: nat)
    ensures r <= |w|
    ensures forall k :: 0 <= k < r ==> w[k]
    ensures r < |w| ==> !w[r]
    ensures r == |w| <==> AllOnes(w)
  {
    if w == [] || !w[0] then 0 else 1 + TrailingOnes(w[1..])
  }

  /** The zero word. */
  function Zeros(w: nat): (z: seq<bool>)
    ensures |z| == w && forall k :: 0 <= k < w ==> !z[k]
  {
    seq(w, _ => false)
  }

  /*
   * The bitmap a fresh medium page starts with
   */

  /** The `extra_bits` constant `alloc_medium` gives a fresh page of class `index`. */
  function MediumInitialBits(index: int): int
    requires 0 <= index <= MEDIUM_BUCKETS
  {
    match index
    case 0 => 0x0000_0000_0000_0001
    case 1 => 0xFFFF_FFFF_0000_0001
    case 2 => 0xFFFF_FFFF_FFFF_0001
    case 3 => 0xFFFF_FFFF_FFFF_FF01
    case 4 => 0xFFFF_FFFF_FFFF_FFF1
    case _ => 0xFFFF_FFFF_FFFF_FFFD
  }

  /** The tag `alloc_medium` gives a fresh page of class `index`. */
  function MediumType(index: int): MetadataType
    requires 0 <= index <= MEDIUM_BUCKETS
  {
    match index
    case 0 => Medium64
    case 1 => Medium128
    case 2 => Medium256
    case 3 => Medium512
    case 4 => Medium1024
    case _ => Medium2048
  }

  /** Slot 0 taken, and every slot from `m` on, past the end of the page, marked used. */
  function ClassBitmap(m: nat): seq<bool>
  {
    seq(64, k => k == 0 || k >= m)
  }

  /** The bits from `m` up of a `w`-bit word. */
  lemma {:induction false} HighBitsValue(m: nat, w: nat)
    requires m <= w
    ensures FromBits(seq(w, k => k >= m)) == Pow2(w) - Pow2(m)
    decreases m
  {
    if m == 0 {
      assert seq(w, k => k >= m) == LowMask(w, w);
      LowMaskValue(w, w);
    } else {
      var b := seq(w, k => k >= m);
      assert b[1..] == seq(w - 1, k => k >= m - 1);
      HighBitsValue(m - 1, w - 1);
    }
  }

  /** `ClassBitmap(m)` is the number `2^64 - 2^m + 1`. */
  lemma ClassBitmapValue(m: nat)
    requires 1 <= m <= 64
    ensures FromBits(ClassBitmap(m)) == U64_LIMIT - Pow2(m) + 1
  {
    var b := ClassBitmap(m);
    assert b[1..] == seq(63, k => k >= m - 1);
    HighBitsValue(m - 1, 63);
    Pow2At63();
  }

  /** `ClassBitmap(m)` is the `u64` value `2^64 - 2^m + 1`. */
  lemma ClassBitmapBits(m: nat, c: int)
    requires 1 <= m <= 64 && c == U64_LIMIT - Pow2(m) + 1
    ensures 0 <= c && ToBits(c, 64) == ClassBitmap(m)
  {
    ClassBitmapValue(m);
    ToFromBits(ClassBitmap(m));
  }

  lemma Pow2Values()
    ensures Pow2(2) == 4 && Pow2(4) == 16 && Pow2(8) == 256
    ensures Pow2(16) == 0x1_0000 && Pow2(32) == 0x1_0000_0000 && Pow2(64) == U64_LIMIT
  {
    assert Pow2(16) == 0x1_0000;
    Pow2Add(16, 16);
    Pow2At63();
  }

  /** A page holds `64 / 2^index` slots of class `index`. */
  lemma SlotsPerPage(index: int)
    requires 0 <= index <= MEDIUM_BUCKETS
    ensures PAGESIZE / Pow2(index + 6) == [64, 32, 16, 8, 4, 2][index]
  {
    var m := [64, 32, 16, 8, 4, 2][index];
    assert Pow2(index) == [1, 2, 4, 8, 16, 32][index];
    Pow2Add(index, 6);
    assert Pow2(6) == 64;
    DivModUnique(PAGESIZE, Pow2(index + 6), m, 0);
  }

  /**
   * Each fresh medium bitmap is slot 0 plus every bit from
   * `4096 / slot size` up: the constants agree with the slot sizes.
   */
  lemma MediumInitialBitmap(index: int)
    requires 0 <= index <= MEDIUM_BUCKETS
    ensures 0 <= MediumInitialBits(index)
    ensures ToBits(MediumInitialBits(index), 64) == ClassBitmap(PAGESIZE / Pow2(index + 6))
  {
    var m := PAGESIZE / Pow2(index + 6);
    var c := MediumInitialBits(index);
    assert 1 <= m <= 64 && c == U64_LIMIT - Pow2(m) + 1 by {
      SlotsPerPage(index);
      Pow2Values();
    }
    ClassBitmapBits(m, c);
  }

  /*
   * Size classes
   */

  datatype SizeClass = TinyClass | MediumClass(index: int) | BadSize

  /** The match in `SlebMetadataPage::alloc`. */
  function ClassOf(size: int): SizeClass
    requires size >= 0
  {
    if size <= 32 then TinyClass
    else if size <= 64 then MediumClass(0)
    else if size <= 128 then MediumClass(1)
    else if size <= 256 then MediumClass(2)
    else if size <= 512 then MediumClass(3)
    else if size <= 1024 then MediumClass(4)
    else if size <= 2048 then MediumClass(5)
    else BadSize
  }

  /**
   * A medium request of `size` bytes goes to the class whose slot,
   * `2^(index + 6)` bytes, is the least power of two that holds it.
   */
  lemma MediumClassFits(size: int)
    requires 32 < size <= 2048
    ensures ClassOf(size).MediumClass? && 0 <= ClassOf(size).index <= MEDIUM_BUCKETS
    ensures var i := ClassOf(size).index; Pow2(i + 5) < size <= Pow2(i + 6)
  {
    var i := ClassOf(size).index;
    assert Pow2(5) == 32;
    assert Pow2(i + 6) == 2 * Pow2(i + 5);
    Pow2Add(i, 5);
    assert Pow2(i) == [1, 2, 4, 8, 16, 32][i];
  }

  /*
   * Addresses
   */

  /** `within_bounds`: strictly above the metadata page's address and below 1 MiB past it. */
  predicate WithinBounds(base: int, p: int)
  {
    base < p < base + ONE_MIB
  }

  /** `index_to_ptr`: data page `index` is the page after the metadata page's `index`-th successor. */
  function PagePtr(base: int, index: int): int
    requires 0 <= index < ENTRIES_PER_PAGE
  {
    base + PAGESIZE * (index + 1)
  }

  /** The record index `free` derives from `ptr`; it panics on the subtractions' underflow. */
  function FreeIndex(base: int, ptr: int): Outcome<int>
  {
    if ptr < base || (ptr - base) / PAGESIZE == 0 then Panic else Ok((ptr - base) / PAGESIZE - 1)
  }

  /**
   * An address inside data page `index` lies within Sleb's bounds, and
   * `free` maps it back to record `index`.
   */
  lemma PageIndexRoundTrip(base: int, index: int, offset: int)
    requires 0 <= index < ENTRIES_PER_PAGE && 0 <= offset < PAGESIZE
    ensures WithinBounds(base, PagePtr(base, index) + offset)
    ensures FreeIndex(base, PagePtr(base, index) + offset) == Ok(index)
  {
    DivModUnique(PAGESIZE * (index + 1) + offset, PAGESIZE, index + 1, offset);
  }

  /**
   * Every address within Sleb's bounds past the metadata page maps to a
   * record index; one inside the metadata page makes `free` panic.
   */
  lemma FreeIndexInBounds(base: int, ptr: int)
    requires WithinBounds(base, ptr)
    ensures FreeIndex(base, ptr).Ok? <==> ptr >= base + PAGESIZE
    ensures FreeIndex(base, ptr).Ok? ==> 0 <= FreeIndex(base, ptr).value < ENTRIES_PER_PAGE
  {
    var d := ptr - base;
    DivModUnique(d, PAGESIZE, d / PAGESIZE, d % PAGESIZE);
  }

  /** `MetadataPage::take_slot`: byte `slot * size` of the page; the page's byte array panics past 4095. */
  function TakeSlot(page: int, slot: int, size: int): Outcome<int>
    requires 0 <= slot && 0 <= size
  {
    if slot * size >= PAGESIZE then Panic else Ok(page + slot * size)
  }
}
