/**
 * `SlebMetadataPage` as the source runs it: the 255 metadata records and
 * the tiny pages' bitmaps are updated in place, and the two bucket arrays
 * (statics behind locks in the source) are kept here as arrays. Every
 * method follows the source statement by statement and is proved to end
 * the way the matching function of `SlebSpec` says. A loop that the
 * functions call `Hangs` is stopped after `WALK_LIMIT` passes, and the
 * method then reports `Hangs`; `TinyScanNeverEnds` and
 * `MediumScanNeverEnds` show the source's loop would never end there.
 */
module SlebAllocation {
  import opened Common
  import opened Bits
  import opened Buddy
  import opened Sleb
  import opened SlebSpec
  import opened SlebProperties

  /** A method's result against the function that specifies it: same result, same final state. */
  ghost predicate EndsAs(r: Run<int>, spec: Run<(SlebState, int)>, now: SlebState)
  {
    match spec
    case Returns((s', p)) => r == Returns(p) && now == s'
    case Panics => r.Panics?
    case Hangs => r.Hangs?
  }

  /** The same for a bucket loop, whose result may be "nothing found". */
  ghost predicate WalkEndsAs(r: Run<Option<int>>, spec: Run<(SlebState, Option<int>)>, now: SlebState)
  {
    match spec
    case Returns((s', p)) => r == Returns(p) && now == s'
    case Panics => r.Panics?
    case Hangs => r.Hangs?
  }

  class SlebMetadataPage {
    const base: int
    const metadata: array<SlebMetadata>
    const tinyBitfields: array<seq<bool>>
    const tinyBuckets: array<int>
    const mediumBuckets: array<int>

    ghost function State(): SlebState
      reads metadata, tinyBitfields, tinyBuckets, mediumBuckets
    {
      SlebState(base, metadata[..], tinyBitfields[..], tinyBuckets[..], mediumBuckets[..])
    }

    ghost predicate Valid()
      reads metadata, tinyBitfields, tinyBuckets, mediumBuckets
    {
      State().Valid() && tinyBuckets != mediumBuckets
    }

    /** `SlebMetadataPage::init` on the 1 MiB block at `page`. */
    constructor (page: int)
      requires 0 < page && page % PAGESIZE == 0 && page + ONE_MIB <= U64_LIMIT
      ensures Valid() && State() == InitState(page)
      ensures fresh(metadata) && fresh(tinyBitfields) && fresh(tinyBuckets) && fresh(mediumBuckets)
    {
      base := page;
      metadata := new SlebMetadata[ENTRIES_PER_PAGE](_ => SlebMetadata(0, Zeros(64)));
      tinyBitfields := new seq<bool>[ENTRIES_PER_PAGE](_ => Zeros(TINY_BITS));
      tinyBuckets := new int[TINY_BUCKETS](_ => BUCKET_INDEX_NONE);
      mediumBuckets := new int[MEDIUM_BUCKETS](_ => BUCKET_INDEX_NONE);
      new;
      assert tinyBuckets[..] == [BUCKET_INDEX_NONE];
    }

    /** `find_empty_page(t)`. */
    method FindEmptyPage(t: MetadataType) returns (r: Option<int>)
      requires Valid()
      modifies metadata
      ensures Valid() && (State(), r) == FindEmptyPageSpec(old(State()), t)
    {
      for i := 0 to ENTRIES_PER_PAGE
        invariant metadata[..] == old(metadata[..])
        invariant FirstEmpty(metadata[..], i) == FirstEmpty(metadata[..], 0)
      {
        if TypeOf(metadata[i]).Empty? {
          metadata[i] := metadata[i].(bits := SetType(metadata[i].bits, Discriminant(t)));
          return Some(i);
        }
      }
      return None;
    }

    /** `TinyMetadataPage::find_free_slot` on the tiny page of record `index`. */
    method FindFreeSlot(index: int) returns (r: Outcome<int>)
      requires Valid() && 0 <= index < ENTRIES_PER_PAGE
      modifies tinyBitfields
      ensures var spec := FindFreeSlotSpec(old(tinyBitfields[index]), PagePtr(base, index), 0);
        && r.Ok? == spec.Ok?
        && (r.Ok? ==> r.value == spec.value.1 && Valid()
                      && tinyBitfields[..] == old(tinyBitfields[..])[index := spec.value.0])
    {
      var page := PagePtr(base, index);
      var w := 0;
      while w < 2
        invariant 0 <= w <= 2 && tinyBitfields[..] == old(tinyBitfields[..])
        invariant FindFreeSlotSpec(tinyBitfields[index], page, w) == FindFreeSlotSpec(tinyBitfields[index], page, 0)
      {
        var bits := TinyWord(tinyBitfields[index], w);
        if !AllOnes(bits) {
          var slot := w * 64 + TrailingOnes(bits);
          tinyBitfields[index] := tinyBitfields[index][slot := true];
          if slot >= TINY_ENTRIES {
            return Panic;
          }
          return Ok(page + TINY_HEADER + TINY_SLOT * slot);
        }
        w := w + 1;
      }
      return Ok(0);
    }

    /** The `while let` loop of `alloc_tiny`. */
    method TinyWalk() returns (r: Run<Option<int>>)
      requires Valid()
      modifies tinyBitfields, tinyBuckets
      ensures WalkEndsAs(r, TinyScan(old(State()), old(tinyBuckets[0]), WALK_LIMIT), State())
      ensures r.Returns? ==> Valid()
    {
      var fuel: nat := WALK_LIMIT;
      while tinyBuckets[0] != BUCKET_INDEX_NONE
        invariant Valid() && tinyBitfields[..] == old(tinyBitfields[..])
        invariant TinyScan(old(State()), tinyBuckets[0], fuel) == TinyScan(old(State()), old(tinyBuckets[0]), WALK_LIMIT)
        decreases fuel
      {
        if fuel == 0 {
          return Hangs;
        }
        var i := tinyBuckets[0];
        if i >= ENTRIES_PER_PAGE {
          return Panics;
        }
        var next := NextIndex(metadata[i].bits);
        FindFreeSlotNull(tinyBitfields[i], PagePtr(base, i));
        var slot := FindFreeSlot(i);
        if slot.Panic? {
          return Panics;
        }
        if slot.value != 0 {
          assert tinyBuckets[..] == [i];
          return Returns(Some(slot.value));
        }
        NextIndexNeverNone(metadata[i].bits);
        tinyBuckets[0] := next;
        fuel := fuel - 1;
      }
      assert tinyBuckets[..] == [BUCKET_INDEX_NONE];
      return Returns(None);
    }

    /** `alloc_tiny`. */
    method AllocTiny() returns (r: Run<int>)
      requires Valid()
      modifies metadata, tinyBitfields, tinyBuckets
      ensures EndsAs(r, AllocTinySpec(old(State())), State())
      ensures r.Returns? ==> Valid()
    {
      var walk := TinyWalk();
      match walk
      case Panics => return Panics;
      case Hangs => return Hangs;
      case Returns(Some(p)) => return Returns(p);
      case Returns(None) =>
      var found := FindEmptyPage(Tiny32);
      if found.None? {
        return Returns(0);
      }
      var i := found.value;
      tinyBitfields[i] := Zeros(TINY_BITS);
      var slot := FindFreeSlot(i);
      if slot.Panic? {
        return Panics;
      }
      return Returns(slot.value);
    }

    /** The `while let` loop of `alloc_medium(index)`. */
    method MediumWalk(index: int) returns (r: Run<Option<int>>)
      requires Valid() && 0 <= index < MEDIUM_BUCKETS
      modifies metadata, mediumBuckets
      ensures WalkEndsAs(r, MediumScan(old(State()), index, old(mediumBuckets[index]), WALK_LIMIT), State())
      ensures r.Returns? ==> Valid()
    {
      var fuel: nat := WALK_LIMIT;
      while mediumBuckets[index] != BUCKET_INDEX_NONE
        invariant Valid() && metadata[..] == old(metadata[..])
        invariant mediumBuckets[..] == old(mediumBuckets[..])[index := mediumBuckets[index]]
        invariant MediumScan(old(State()), index, mediumBuckets[index], fuel) ==
                  MediumScan(old(State()), index, old(mediumBuckets[index]), WALK_LIMIT)
        decreases fuel
      {
        if fuel == 0 {
          return Hangs;
        }
        var i := mediumBuckets[index];
        if i >= ENTRIES_PER_PAGE {
          return Panics;
        }
        var slot := TrailingOnes(metadata[i].extraBits);
        if slot < 64 {
          metadata[i] := metadata[i].(extraBits := metadata[i].extraBits[slot := true]);
          var p := TakeSlot(PagePtr(base, i), slot, SlotSize(index));
          if p.Panic? {
            return Panics;
          }
          return Returns(Some(p.value));
        }
        var next := NextIndex(metadata[i].bits);
        NextIndexNeverNone(metadata[i].bits);
        mediumBuckets[index] := next;
        fuel := fuel - 1;
      }
      return Returns(None);
    }

    /** `alloc_medium(index)`. */
    method AllocMedium(index: int) returns (r: Run<int>)
      requires Valid() && 0 <= index <= MEDIUM_BUCKETS
      modifies metadata, mediumBuckets
      ensures EndsAs(r, AllocMediumSpec(old(State()), index), State())
      ensures r.Returns? ==> Valid()
    {
      if index >= MEDIUM_BUCKETS {
        return Panics;
      }
      var walk := MediumWalk(index);
      match walk
      case Panics => return Panics;
      case Hangs => return Hangs;
      case Returns(Some(p)) => return Returns(p);
      case Returns(None) =>
      var found := FindEmptyPage(MediumType(index));
      if found.None? {
        return Returns(0);
      }
      var i := found.value;
      MediumInitialBitmap(index);
      metadata[i] := metadata[i].(extraBits := ToBits(MediumInitialBits(index), 64));
      var p := TakeSlot(PagePtr(base, i), 0, SlotSize(index));
      if p.Panic? {
        return Panics;
      }
      return Returns(p.value);
    }

    /** `SlebMetadataPage::alloc(size)`. */
    method Alloc(size: int) returns (r: Run<int>)
      requires Valid() && 0 <= size
      modifies metadata, tinyBitfields, tinyBuckets, mediumBuckets
      ensures EndsAs(r, AllocSpec(old(State()), size), State())
      ensures r.Returns? ==> Valid()
    {
      match ClassOf(size)
      case TinyClass =>
        r := AllocTiny();
      case MediumClass(index) =>
        r := AllocMedium(index);
      case BadSize =>
        r := Panics;
    }

    /** `free_tiny(mdIndex, ptr)`; `ok == false` stands for a panic. */
    method FreeTiny(mdIndex: int, ptr: int) returns (ok: bool)
      requires Valid() && 0 <= mdIndex < ENTRIES_PER_PAGE
      modifies metadata, tinyBitfields, tinyBuckets
      ensures ok == FreeTinySpec(old(State()), mdIndex, ptr).Ok?
      ensures ok ==> Valid() && State() == FreeTinySpec(old(State()), mdIndex, ptr).value
    {
      ghost var s0 := State();
      var slot := FreedSlot(ptr);
      if !tinyBitfields[mdIndex][slot] {
        return false;
      }
      var wasFull := AllOnes(tinyBitfields[mdIndex]);
      tinyBitfields[mdIndex] := tinyBitfields[mdIndex][slot := false];
      if wasFull {
        match BucketGet(tinyBuckets[0])
        case None =>
          var b := BucketSet(mdIndex);
          if b.Panic? {
            return false;
          }
          tinyBuckets[0] := b.value;
        case Some(i) =>
          if i < 0 || i >= ENTRIES_PER_PAGE {
            return false;
          }
          metadata[i] := metadata[i].(bits := SetPrev(metadata[i].bits, mdIndex));
          var b := BucketSet(mdIndex);
          if b.Panic? {
            return false;
          }
          tinyBuckets[0] := b.value;
          metadata[mdIndex] := metadata[mdIndex].(bits := SetNext(metadata[mdIndex].bits, i));
          assert metadata[..] == LinkPage(s0.metadata, s0.tinyBuckets[0], mdIndex).value.0;
      }
      assert tinyBuckets[..] == [tinyBuckets[0]];
      assert State() == FreeTinySpec(s0, mdIndex, ptr).value;
      FreeTinyClears(s0, mdIndex, ptr);
      return true;
    }

    /** `free_medium(mdIndex, bucketIndex, ptr)`; `ok == false` stands for a panic. */
    method FreeMedium(mdIndex: int, bucketIndex: int, ptr: int) returns (ok: bool)
      requires Valid() && 0 <= mdIndex < ENTRIES_PER_PAGE && 0 <= bucketIndex
      modifies metadata, mediumBuckets
      ensures ok == FreeMediumSpec(old(State()), mdIndex, bucketIndex, ptr).Ok?
      ensures ok ==> Valid() && State() == FreeMediumSpec(old(State()), mdIndex, bucketIndex, ptr).value
    {
      ghost var s0 := State();
      var slot := FreedSlot(ptr);
      if slot >= 64 || !metadata[mdIndex].extraBits[slot] {
        return false;
      }
      var wasFull := AllOnes(metadata[mdIndex].extraBits);
      metadata[mdIndex] := metadata[mdIndex].(extraBits := metadata[mdIndex].extraBits[slot := false]);
      ghost var md := metadata[..];
      if wasFull {
        if bucketIndex >= MEDIUM_BUCKETS {
          return false;
        }
        match BucketGet(mediumBuckets[bucketIndex])
        case None =>
          var b := BucketSet(mdIndex);
          if b.Panic? {
            return false;
          }
          mediumBuckets[bucketIndex] := b.value;
        case Some(i) =>
          if i < 0 || i >= ENTRIES_PER_PAGE {
            return false;
          }
          metadata[i] := metadata[i].(bits := SetPrev(metadata[i].bits, mdIndex));
          var b := BucketSet(mdIndex);
          if b.Panic? {
            return false;
          }
          mediumBuckets[bucketIndex] := b.value;
          metadata[mdIndex] := metadata[mdIndex].(bits := SetNext(metadata[mdIndex].bits, i));
          assert metadata[..] == LinkPage(md, s0.mediumBuckets[bucketIndex], mdIndex).value.0;
      }
      assert State() == FreeMediumSpec(s0, mdIndex, bucketIndex, ptr).value;
      FreeMediumClears(s0, mdIndex, bucketIndex, ptr);
      return true;
    }

    /** `SlebMetadataPage::free(ptr)`; `ok == false` stands for a panic. */
    method Free(ptr: int) returns (ok: bool)
      requires Valid()
      modifies metadata, tinyBitfields, tinyBuckets, mediumBuckets
      ensures ok == FreeSpec(old(State()), ptr).Ok?
      ensures ok ==> Valid() && State() == FreeSpec(old(State()), ptr).value
    {
      var f := FreeIndex(base, ptr);
      if f.Panic? || f.value >= ENTRIES_PER_PAGE {
        return false;
      }
      var index := f.value;
      match TypeOf(metadata[index])
      case Tiny32 => ok := FreeTiny(index, ptr);
      case Medium64 => ok := FreeMedium(index, 0, ptr);
      case Medium128 => ok := FreeMedium(index, 1, ptr);
      case Medium256 => ok := FreeMedium(index, 2, ptr);
      case Medium512 => ok := FreeMedium(index, 3, ptr);
      case Medium1024 => ok := FreeMedium(index, 4, ptr);
      case Medium2048 => ok := FreeMedium(index, 5, ptr);
      case Empty => ok := false;
    }
  }
}
