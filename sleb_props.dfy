/**
 * What Sleb's operations do, proved about the functions of `SlebSpec`:
 * slot search, page search, the bucket loops, the tiny tier's dead bucket,
 * the medium tier's class bitmaps, and what `free` clears and links.
 */
module SlebProperties {
  import opened Common
  import opened Bits
  import opened Buddy
  import opened Sleb
  import opened SlebSpec
  import opened Walks

  /*
   * Finding a free tiny slot
   */

  /** `trailing_ones` is fixed by its three properties. */
  lemma TrailingOnesUnique(w: seq<bool>, r: nat)
    requires r <= |w| && (forall k :: 0 <= k < r ==> w[k]) && (r < |w| ==> !w[r])
    ensures TrailingOnes(w) == r
  {
  }

  /** The lowest clear bit of a 128-bit bitmap, found word by word. */
  lemma TrailingOnesWords(bf: seq<bool>)
    requires |bf| == TINY_BITS
    ensures AllOnes(bf) <==> AllOnes(TinyWord(bf, 0)) && AllOnes(TinyWord(bf, 1))
    ensures !AllOnes(TinyWord(bf, 0)) ==> TrailingOnes(bf) == TrailingOnes(TinyWord(bf, 0))
    ensures AllOnes(TinyWord(bf, 0)) ==> TrailingOnes(bf) == 64 + TrailingOnes(TinyWord(bf, 1))
  {
    var w0, w1 := TinyWord(bf, 0), TinyWord(bf, 1);
    assert forall k :: 0 <= k < 64 ==> w0[k] == bf[k] && w1[k] == bf[64 + k];
    if !AllOnes(w0) {
      TrailingOnesUnique(bf, TrailingOnes(w0));
    } else {
      var t := 64 + TrailingOnes(w1);
      assert forall k :: 0 <= k < t ==> bf[k] by {
        forall k | 0 <= k < t ensures bf[k] {
          if k >= 64 {
            assert w1[k - 64];
          }
        }
      }
      TrailingOnesUnique(bf, t);
    }
  }

  /**
   * `find_free_slot` takes the lowest clear bit of the whole bitmap: null
   * with nothing changed when all 128 bits are set, a panic for slot 127,
   * otherwise that bit set and the address of entry `slot`.
   */
  lemma FindFreeSlotLowest(bf: seq<bool>, page: int)
    requires |bf| == TINY_BITS
    ensures var t := TrailingOnes(bf);
      FindFreeSlotSpec(bf, page, 0) ==
        if t == TINY_BITS then Ok((bf, 0))
        else if t >= TINY_ENTRIES then Panic
        else Ok((bf[t := true], page + TINY_HEADER + TINY_SLOT * t))
  {
    TrailingOnesWords(bf);
  }

  /** `find_free_slot` returns null, changing nothing, exactly when every bit of the page is set. */
  lemma FindFreeSlotNull(bf: seq<bool>, page: int)
    requires |bf| == TINY_BITS && 0 < page
    ensures FindFreeSlotSpec(bf, page, 0).Ok? && FindFreeSlotSpec(bf, page, 0).value.1 == 0 <==> AllOnes(bf)
    ensures AllOnes(bf) ==> FindFreeSlotSpec(bf, page, 0) == Ok((bf, 0))
  {
    FindFreeSlotLowest(bf, page);
  }

  /*
   * Finding an empty page
   */

  /**
   * `find_empty_page(t)` claims the lowest Empty record: it is retagged so
   * that it reads back as `Crossed(t)`, keeps its links, and nothing else
   * changes; with no Empty record nothing changes at all.
   */
  lemma FindEmptyPageEffect(s: SlebState, t: MetadataType)
    requires s.Valid() && !t.Empty?
    ensures var (s', r) := FindEmptyPageSpec(s, t);
      && (r.None? <==> forall i :: 0 <= i < ENTRIES_PER_PAGE ==> !TypeOf(s.metadata[i]).Empty?)
      && (r.None? ==> s' == s)
      && (r.Some? ==>
            var i := r.value;
            && 0 <= i < ENTRIES_PER_PAGE && TypeOf(s.metadata[i]).Empty?
            && (forall j :: 0 <= j < i ==> !TypeOf(s.metadata[j]).Empty?)
            && TypeOf(s'.metadata[i]) == Crossed(t)
            && NextIndex(s'.metadata[i].bits) == NextIndex(s.metadata[i].bits)
            && PrevIndex(s'.metadata[i].bits) == PrevIndex(s.metadata[i].bits)
            && s'.metadata[i].extraBits == s.metadata[i].extraBits
            && s' == s.(metadata := s.metadata[i := s'.metadata[i]]))
  {
    TagRoundTrip(t);
  }

  /*
   * The bucket loops
   */

  /** The next index of every record. */
  function Successors(s: SlebState): (next: seq<int>)
    requires s.Valid()
    ensures |next| == ENTRIES_PER_PAGE
    ensures forall i :: 0 <= i < ENTRIES_PER_PAGE ==> next[i] == NextIndex(s.metadata[i].bits)
  {
    seq(ENTRIES_PER_PAGE, i requires 0 <= i < ENTRIES_PER_PAGE => NextIndex(s.metadata[i].bits))
  }

  /** Which tiny pages have no clear bit. */
  function TinyFull(s: SlebState): (full: seq<bool>)
    requires s.Valid()
    ensures |full| == ENTRIES_PER_PAGE
    ensures forall i :: 0 <= i < ENTRIES_PER_PAGE ==> full[i] == AllOnes(s.tinyBitfields[i])
  {
    seq(ENTRIES_PER_PAGE, i requires 0 <= i < ENTRIES_PER_PAGE => AllOnes(s.tinyBitfields[i]))
  }

  /** Which medium pages have no clear bit in `extra_bits`. */
  function MediumFull(s: SlebState): (full: seq<bool>)
    requires s.Valid()
    ensures |full| == ENTRIES_PER_PAGE
    ensures forall i :: 0 <= i < ENTRIES_PER_PAGE ==> full[i] == AllOnes(s.metadata[i].extraBits)
  {
    seq(ENTRIES_PER_PAGE, i requires 0 <= i < ENTRIES_PER_PAGE => AllOnes(s.metadata[i].extraBits))
  }

  /**
   * The tiny loop is still going after `n` passes exactly when the first
   * `n` pages it meets are records of full pages and the next is not the
   * empty bucket.
   */
  lemma {:induction false} TinyScanHangs(s: SlebState, bucket: int, n: nat)
    requires s.Valid() && 0 <= bucket < U32_LIMIT
    ensures TinyScan(s, bucket, n).Hangs? <==>
      AllFull(Successors(s), TinyFull(s), bucket, n) && Iterate(Successors(s), bucket, n) != BUCKET_INDEX_NONE
    decreases n
  {
    var next, full := Successors(s), TinyFull(s);
    if n == 0 {
    } else if bucket == BUCKET_INDEX_NONE || bucket >= ENTRIES_PER_PAGE {
      assert Iterate(next, bucket, 0) == bucket;
    } else {
      FindFreeSlotNull(s.tinyBitfields[bucket], PagePtr(s.base, bucket));
      NextIndexNeverNone(s.metadata[bucket].bits);
      AllFullStep(next, full, bucket, n - 1);
      if !full[bucket] {
        assert Iterate(next, bucket, 0) == bucket;
      } else {
        TinyScanHangs(s, next[bucket], n - 1);
      }
    }
  }

  /** The same for the medium loop of class `index`. */
  lemma {:induction false} MediumScanHangs(s: SlebState, index: int, bucket: int, n: nat)
    requires s.Valid() && 0 <= index < MEDIUM_BUCKETS && 0 <= bucket < U32_LIMIT
    ensures MediumScan(s, index, bucket, n).Hangs? <==>
      AllFull(Successors(s), MediumFull(s), bucket, n) && Iterate(Successors(s), bucket, n) != BUCKET_INDEX_NONE
    decreases n
  {
    var next, full := Successors(s), MediumFull(s);
    if n == 0 {
    } else if bucket == BUCKET_INDEX_NONE || bucket >= ENTRIES_PER_PAGE {
      assert Iterate(next, bucket, 0) == bucket;
    } else {
      NextIndexNeverNone(s.metadata[bucket].bits);
      AllFullStep(next, full, bucket, n - 1);
      if !full[bucket] {
        assert Iterate(next, bucket, 0) == bucket;
      } else {
        MediumScanHangs(s, index, next[bucket], n - 1);
      }
    }
  }

  /**
   * A tiny loop that has not ended after `WALK_LIMIT` passes never ends:
   * however many passes it is given, it is still going.
   */
  lemma TinyScanNeverEnds(s: SlebState, bucket: int)
    requires s.Valid() && 0 <= bucket < U32_LIMIT
    requires TinyScan(s, bucket, WALK_LIMIT).Hangs?
    ensures forall n: nat :: TinyScan(s, bucket, n).Hangs?
  {
    var next, full := Successors(s), TinyFull(s);
    TinyScanHangs(s, bucket, WALK_LIMIT);
    WalkCycles(next, full, bucket);
    forall n: nat ensures TinyScan(s, bucket, n).Hangs? {
      assert AllFull(next, full, bucket, n + 1);
      TinyScanHangs(s, bucket, n);
    }
  }

  /** The same for the medium loop. */
  lemma MediumScanNeverEnds(s: SlebState, index: int, bucket: int)
    requires s.Valid() && 0 <= index < MEDIUM_BUCKETS && 0 <= bucket < U32_LIMIT
    requires MediumScan(s, index, bucket, WALK_LIMIT).Hangs?
    ensures forall n: nat :: MediumScan(s, index, bucket, n).Hangs?
  {
    var next, full := Successors(s), MediumFull(s);
    MediumScanHangs(s, index, bucket, WALK_LIMIT);
    WalkCycles(next, full, bucket);
    forall n: nat ensures MediumScan(s, index, bucket, n).Hangs? {
      assert AllFull(next, full, bucket, n + 1);
      MediumScanHangs(s, index, bucket, n);
    }
  }

  /*
   * Allocation
   */

  /** Sizes above 1024 bytes panic: 1025 to 2048 bytes reach the sixth medium bucket, which does not exist. */
  lemma AllocAbove1024Panics(s: SlebState, size: int)
    requires s.Valid() && size > 1024
    ensures AllocSpec(s, size) == Panics
  {
  }

  /**
   * With its bucket empty, a medium allocation claims the lowest Empty
   * record and returns its page's first slot; the page's tag reads back
   * as `Crossed` of the class's type and its bitmap marks slot 0 and every
   * slot past the page's end. With no Empty record it returns null and
   * changes nothing.
   */
  lemma MediumFreshPage(s: SlebState, index: int)
    requires s.Valid() && 0 <= index < MEDIUM_BUCKETS && s.mediumBuckets[index] == BUCKET_INDEX_NONE
    ensures AllocMediumSpec(s, index).Returns?
    ensures var (s', p) := AllocMediumSpec(s, index).value;
      match FirstEmpty(s.metadata, 0)
      case None => s' == s && p == 0
      case Some(i) =>
        && p == PagePtr(s.base, i)
        && TypeOf(s'.metadata[i]) == Crossed(MediumType(index))
        && s'.metadata[i].extraBits == ClassBitmap(PageSlots(index))
        && (forall j :: 0 <= j < ENTRIES_PER_PAGE && j != i ==> s'.metadata[j] == s.metadata[j])
        && s'.mediumBuckets == s.mediumBuckets
        && s'.tinyBitfields == s.tinyBitfields && s'.tinyBuckets == s.tinyBuckets
  {
    assert s.(mediumBuckets := s.mediumBuckets[index := BUCKET_INDEX_NONE]) == s;
    FindEmptyPageEffect(s, MediumType(index));
    MediumInitialBitmap(index);
  }

  /**
   * With the tiny bucket empty, a tiny allocation claims the lowest Empty
   * record, clears its page's bitmap and returns entry 0, 16 bytes into
   * the page; with no Empty record it returns null and changes nothing.
   */
  lemma TinyFreshPage(s: SlebState)
    requires s.Valid() && s.tinyBuckets[0] == BUCKET_INDEX_NONE
    ensures AllocTinySpec(s).Returns?
    ensures var (s', p) := AllocTinySpec(s).value;
      match FirstEmpty(s.metadata, 0)
      case None => s' == s && p == 0
      case Some(i) =>
        && p == PagePtr(s.base, i) + TINY_HEADER
        && TypeOf(s'.metadata[i]) == Tiny32
        && s'.tinyBitfields == s.tinyBitfields[i := Zeros(TINY_BITS)[0 := true]]
        && (forall j :: 0 <= j < ENTRIES_PER_PAGE && j != i ==> s'.metadata[j] == s.metadata[j])
        && s'.tinyBuckets == s.tinyBuckets && s'.mediumBuckets == s.mediumBuckets
  {
    assert s.tinyBuckets == [BUCKET_INDEX_NONE];
    assert s.(tinyBuckets := [BUCKET_INDEX_NONE]) == s;
    FindEmptyPageEffect(s, Tiny32);
    var (s2, r) := FindEmptyPageSpec(s, Tiny32);
    if r.Some? {
      FindFreeSlotLowest(Zeros(TINY_BITS), PagePtr(s2.base, r.value));
      TrailingOnesUnique(Zeros(TINY_BITS), 0);
    }
  }

  /**
   * The bits a fresh medium page leaves clear are exactly its slots past
   * slot 0 that lie inside the page.
   */
  lemma ClassBitmapFreeSlots(index: int, t: int)
    requires 0 <= index <= MEDIUM_BUCKETS && 0 <= t < 64
    ensures !ClassBitmap(PageSlots(index))[t] <==> 1 <= t && t * SlotSize(index) < PAGESIZE
  {
    var m, z := PageSlots(index), SlotSize(index);
    DivModUnique(PAGESIZE, z, m, 0);
    if t >= m {
      MulMonotone(m, t, z);
    } else {
      MulMonotone(t, m - 1, z);
    }
  }

  /**
   * A medium allocation whose bucket holds a page with a clear bit takes
   * the lowest clear bit: it is set and the address of that slot is
   * returned, or the slot lies past the page and it panics. The bucket is
   * unchanged.
   */
  lemma MediumBucketSlot(s: SlebState, index: int)
    requires s.Valid() && 0 <= index < MEDIUM_BUCKETS
    requires s.mediumBuckets[index] < ENTRIES_PER_PAGE
    requires !AllOnes(s.metadata[s.mediumBuckets[index]].extraBits)
    ensures var b := s.mediumBuckets[index];
      var m := s.metadata[b];
      var t := TrailingOnes(m.extraBits);
      AllocMediumSpec(s, index) ==
        if t * SlotSize(index) >= PAGESIZE then Panics
        else Returns((s.(metadata := s.metadata[b := m.(extraBits := m.extraBits[t := true])]),
                      PagePtr(s.base, b) + t * SlotSize(index)))
  {
    var b := s.mediumBuckets[index];
    assert s.mediumBuckets[index := b] == s.mediumBuckets;
  }

  /** No tiny bitmap has bit 127 set, and the tiny bucket is empty. */
  ghost predicate TinyQuiet(s: SlebState)
  {
    && s.Valid()
    && s.tinyBuckets[0] == BUCKET_INDEX_NONE
    && forall i :: 0 <= i < ENTRIES_PER_PAGE ==> !s.tinyBitfields[i][TINY_ENTRIES]
  }

  /** `init` starts quiet: the tiny bucket is empty and no tiny bitmap has slot 127 set. */
  lemma InitTinyQuiet(base: int)
    requires 0 < base && base % PAGESIZE == 0 && base + ONE_MIB <= U64_LIMIT
    ensures TinyQuiet(InitState(base))
  {
  }

  /** The medium loop writes only its own bucket. */
  lemma {:induction false} MediumScanBucket(s: SlebState, index: int, bucket: int, fuel: nat)
    requires s.Valid() && 0 <= index < MEDIUM_BUCKETS && 0 <= bucket < U32_LIMIT
    requires MediumScan(s, index, bucket, fuel).Returns?
    ensures var s' := MediumScan(s, index, bucket, fuel).value.0;
      forall k :: 0 <= k < MEDIUM_BUCKETS && k != index ==> s'.mediumBuckets[k] == s.mediumBuckets[k]
    ensures bucket == BUCKET_INDEX_NONE ==> MediumScan(s, index, bucket, fuel).value.0.mediumBuckets[index] == bucket
    decreases fuel
  {
    if bucket != BUCKET_INDEX_NONE && fuel > 0 && bucket < ENTRIES_PER_PAGE {
      var m := s.metadata[bucket];
      if TrailingOnes(m.extraBits) >= 64 {
        NextIndexNeverNone(m.bits);
        MediumScanBucket(s, index, NextIndex(m.bits), fuel - 1);
      }
    }
  }

  /** Allocation never puts a page into an empty bucket. */
  lemma AllocKeepsEmptyBuckets(s: SlebState, size: int)
    requires s.Valid() && 0 <= size && AllocSpec(s, size).Returns?
    ensures var s' := AllocSpec(s, size).value.0;
      && (s.tinyBuckets[0] == BUCKET_INDEX_NONE ==> s'.tinyBuckets[0] == BUCKET_INDEX_NONE)
      && forall k :: 0 <= k < MEDIUM_BUCKETS && s.mediumBuckets[k] == BUCKET_INDEX_NONE ==> s'.mediumBuckets[k] == BUCKET_INDEX_NONE
  {
    match ClassOf(size)
    case TinyClass =>
      if s.tinyBuckets[0] == BUCKET_INDEX_NONE {
        TinyFreshPage(s);
      } else {
        var sc := TinyScan(s, s.tinyBuckets[0], WALK_LIMIT);
        if sc.value.1.None? {
          FindEmptyPageEffect(sc.value.0, Tiny32);
        }
      }
    case MediumClass(index) =>
      var sc := MediumScan(s, index, s.mediumBuckets[index], WALK_LIMIT);
      MediumScanBucket(s, index, s.mediumBuckets[index], WALK_LIMIT);
      if sc.value.1.None? {
        FindEmptyPageEffect(sc.value.0, MediumType(index));
      }
  }

  /** A medium allocation leaves the tiny bitmaps and bucket alone. */
  lemma AllocMediumKeepsTiny(s: SlebState, index: int)
    requires s.Valid() && 0 <= index <= MEDIUM_BUCKETS && AllocMediumSpec(s, index).Returns?
    ensures var s' := AllocMediumSpec(s, index).value.0;
      s'.tinyBitfields == s.tinyBitfields && s'.tinyBuckets == s.tinyBuckets
  {
    var sc := MediumScan(s, index, s.mediumBuckets[index], WALK_LIMIT);
    if sc.value.1.None? {
      FindEmptyPageEffect(sc.value.0, MediumType(index));
    }
  }

  /**
   * Every allocation keeps `TinyQuiet`: slot 127 is never handed out, so a
   * tiny page is never full and the tiny bucket never gains a page.
   */
  lemma AllocKeepsTinyQuiet(s: SlebState, size: int)
    requires TinyQuiet(s) && 0 <= size && AllocSpec(s, size).Returns?
    ensures TinyQuiet(AllocSpec(s, size).value.0)
  {
    if ClassOf(size).TinyClass? {
      TinyFreshPage(s);
    } else {
      AllocMediumKeepsTiny(s, ClassOf(size).index);
    }
  }

  /*
   * Freeing
   */

  /**
   * Linking a page that was full: it becomes the bucket's value; an old
   * head and the page point at each other; tags and bitmaps are kept. It
   * panics exactly when the old head is not a record.
   */
  lemma LinkPageEffect(md: seq<SlebMetadata>, bucket: int, index: int)
    requires |md| == ENTRIES_PER_PAGE && RecordsValid(md) && 0 <= index < ENTRIES_PER_PAGE && 0 <= bucket
    ensures LinkPage(md, bucket, index).Ok? <==> bucket == BUCKET_INDEX_NONE || bucket < ENTRIES_PER_PAGE
    ensures LinkPage(md, bucket, index).Ok? ==>
      var (md', b) := LinkPage(md, bucket, index).value;
      && BucketGet(b) == Some(index)
      && |md'| == ENTRIES_PER_PAGE && RecordsValid(md')
      && (bucket == BUCKET_INDEX_NONE ==> md' == md)
      && (bucket != BUCKET_INDEX_NONE ==>
            NextIndex(md'[index].bits) == bucket && PrevIndex(md'[bucket].bits) == index)
      && (forall j :: 0 <= j < ENTRIES_PER_PAGE ==>
            TypeOf(md'[j]) == TypeOf(md[j]) && md'[j].extraBits == md[j].extraBits)
      && (forall j :: 0 <= j < ENTRIES_PER_PAGE && j != index && j != bucket ==> md'[j] == md[j])
  {
    if bucket != BUCKET_INDEX_NONE && bucket < ENTRIES_PER_PAGE {
      var md1 := md[bucket := md[bucket].(bits := SetPrev(md[bucket].bits, index))];
      var md2 := md1[index := md1[index].(bits := SetNext(md1[index].bits, bucket))];
      assert LinkPage(md, bucket, index) == Ok((md2, index));
      LinkedRecords(md, bucket, index);
    }
  }

  /** The two record updates of a link: next and previous indices meet, nothing else moves. */
  lemma LinkedRecords(md: seq<SlebMetadata>, bucket: int, index: int)
    requires |md| == ENTRIES_PER_PAGE && RecordsValid(md)
    requires 0 <= index < ENTRIES_PER_PAGE && 0 <= bucket < ENTRIES_PER_PAGE
    ensures
      var md1 := md[bucket := md[bucket].(bits := SetPrev(md[bucket].bits, index))];
      var md2 := md1[index := md1[index].(bits := SetNext(md1[index].bits, bucket))];
      && |md2| == ENTRIES_PER_PAGE && RecordsValid(md2)
      && NextIndex(md2[index].bits) == bucket && PrevIndex(md2[bucket].bits) == index
      && (forall j :: 0 <= j < ENTRIES_PER_PAGE ==>
            TypeOf(md2[j]) == TypeOf(md[j]) && md2[j].extraBits == md[j].extraBits)
      && (forall j :: 0 <= j < ENTRIES_PER_PAGE && j != index && j != bucket ==> md2[j] == md[j])
  {
    var md1 := md[bucket := md[bucket].(bits := SetPrev(md[bucket].bits, index))];
    var md2 := md1[index := md1[index].(bits := SetNext(md1[index].bits, bucket))];
    forall j | 0 <= j < ENTRIES_PER_PAGE
      ensures 0 <= md2[j].bits < U64_LIMIT
      ensures TypeOf(md2[j]) == TypeOf(md[j]) && md2[j].extraBits == md[j].extraBits
      ensures j != index && j != bucket ==> md2[j] == md[j]
      ensures j == index ==> NextIndex(md2[j].bits) == bucket
      ensures j == bucket ==> PrevIndex(md2[j].bits) == index
    {
      LinkedRecordAt(md, bucket, index, j);
    }
  }

  /** One record after the two updates of a link. */
  lemma LinkedRecordAt(md: seq<SlebMetadata>, bucket: int, index: int, j: int)
    requires |md| == ENTRIES_PER_PAGE && RecordsValid(md)
    requires 0 <= index < ENTRIES_PER_PAGE && 0 <= bucket < ENTRIES_PER_PAGE && 0 <= j < ENTRIES_PER_PAGE
    ensures
      var md1 := md[bucket := md[bucket].(bits := SetPrev(md[bucket].bits, index))];
      var md2 := md1[index := md1[index].(bits := SetNext(md1[index].bits, bucket))];
      && 0 <= md2[j].bits < U64_LIMIT
      && TypeOf(md2[j]) == TypeOf(md[j]) && md2[j].extraBits == md[j].extraBits
      && (j != index && j != bucket ==> md2[j] == md[j])
      && (j == index ==> NextIndex(md2[j].bits) == bucket)
      && (j == bucket ==> PrevIndex(md2[j].bits) == index)
  {
    if j == index {
      LinkedNewHead(md, bucket, index);
    } else if j == bucket {
      LinkedOldHead(md, bucket, index);
    }
  }

  /** The page linked in: its next index is the old head; its tag, bitmap and (when it was the old head) previous index are kept. */
  lemma LinkedNewHead(md: seq<SlebMetadata>, bucket: int, index: int)
    requires |md| == ENTRIES_PER_PAGE && RecordsValid(md)
    requires 0 <= index < ENTRIES_PER_PAGE && 0 <= bucket < ENTRIES_PER_PAGE
    ensures
      var mid := if bucket == index then SetPrev(md[index].bits, index) else md[index].bits;
      var r := SetNext(mid, bucket);
      && 0 <= r < U64_LIMIT && SlebType(r) == SlebType(md[index].bits) && NextIndex(r) == bucket
      && (bucket == index ==> PrevIndex(r) == index)
  {
    assert bucket % INDEX_LIMIT == bucket && index % INDEX_LIMIT == index;
  }

  /** The old head, when it is another page: its previous index is the page linked in, its tag is kept. */
  lemma LinkedOldHead(md: seq<SlebMetadata>, bucket: int, index: int)
    requires |md| == ENTRIES_PER_PAGE && RecordsValid(md)
    requires 0 <= index < ENTRIES_PER_PAGE && 0 <= bucket < ENTRIES_PER_PAGE
    ensures
      var r := SetPrev(md[bucket].bits, index);
      0 <= r < U64_LIMIT && SlebType(r) == SlebType(md[bucket].bits) && PrevIndex(r) == index
  {
    assert index % INDEX_LIMIT == index;
  }


  /**
   * A free that returns found a record with a tag, and cleared exactly the
   * bit of slot `(ptr % 4096) / 32` of its page, which was set; every tag
   * is kept. So freeing a slot whose bit is clear (a double free) panics.
   */
  lemma FreeClearsSlot(s: SlebState, ptr: int)
    requires s.Valid() && FreeSpec(s, ptr).Ok?
    ensures FreeIndex(s.base, ptr).Ok?
    ensures var i, slot, s' := FreeIndex(s.base, ptr).value, FreedSlot(ptr), FreeSpec(s, ptr).value;
      && 0 <= i < ENTRIES_PER_PAGE && !TypeOf(s.metadata[i]).Empty?
      && s'.Valid() && s'.base == s.base
      && (forall j :: 0 <= j < ENTRIES_PER_PAGE ==> TypeOf(s'.metadata[j]) == TypeOf(s.metadata[j]))
      && (TypeOf(s.metadata[i]).Tiny32? ==>
            && s.tinyBitfields[i][slot]
            && s'.tinyBitfields == s.tinyBitfields[i := s.tinyBitfields[i][slot := false]]
            && (forall j :: 0 <= j < ENTRIES_PER_PAGE ==> s'.metadata[j].extraBits == s.metadata[j].extraBits))
      && (!TypeOf(s.metadata[i]).Tiny32? ==>
            && 0 <= slot < 64 && s.metadata[i].extraBits[slot]
            && s'.metadata[i].extraBits == s.metadata[i].extraBits[slot := false]
            && (forall j :: 0 <= j < ENTRIES_PER_PAGE && j != i ==> s'.metadata[j].extraBits == s.metadata[j].extraBits)
            && s'.tinyBitfields == s.tinyBitfields && s'.tinyBuckets == s.tinyBuckets)
  {
    var i := FreeIndex(s.base, ptr).value;
    var t := TypeOf(s.metadata[i]);
    if t.Tiny32? {
      FreeTinyClears(s, i, ptr);
    } else {
      FreeMediumClears(s, i, FreeBucket(t), ptr);
    }
  }

  lemma FreeTinyClears(s: SlebState, i: int, ptr: int)
    requires s.Valid() && 0 <= i < ENTRIES_PER_PAGE && FreeTinySpec(s, i, ptr).Ok?
    ensures var slot, s' := FreedSlot(ptr), FreeTinySpec(s, i, ptr).value;
      && s'.Valid() && s'.base == s.base
      && (forall j :: 0 <= j < ENTRIES_PER_PAGE ==> TypeOf(s'.metadata[j]) == TypeOf(s.metadata[j]))
      && s.tinyBitfields[i][slot]
      && s'.tinyBitfields == s.tinyBitfields[i := s.tinyBitfields[i][slot := false]]
      && (forall j :: 0 <= j < ENTRIES_PER_PAGE ==> s'.metadata[j].extraBits == s.metadata[j].extraBits)
  {
    if AllOnes(s.tinyBitfields[i]) {
      LinkPageEffect(s.metadata, s.tinyBuckets[0], i);
    }
  }

  lemma FreeMediumClears(s: SlebState, i: int, b: int, ptr: int)
    requires s.Valid() && 0 <= i < ENTRIES_PER_PAGE && 0 <= b && FreeMediumSpec(s, i, b, ptr).Ok?
    ensures var slot, s' := FreedSlot(ptr), FreeMediumSpec(s, i, b, ptr).value;
      && s'.Valid() && s'.base == s.base
      && (forall j :: 0 <= j < ENTRIES_PER_PAGE ==> TypeOf(s'.metadata[j]) == TypeOf(s.metadata[j]))
      && 0 <= slot < 64 && s.metadata[i].extraBits[slot]
      && s'.metadata[i].extraBits == s.metadata[i].extraBits[slot := false]
      && (forall j :: 0 <= j < ENTRIES_PER_PAGE && j != i ==> s'.metadata[j].extraBits == s.metadata[j].extraBits)
      && s'.tinyBitfields == s.tinyBitfields && s'.tinyBuckets == s.tinyBuckets
  {
    var m := s.metadata[i];
    var md := s.metadata[i := m.(extraBits := m.extraBits[FreedSlot(ptr) := false])];
    if AllOnes(m.extraBits) {
      LinkPageEffect(md, s.mediumBuckets[b], i);
    }
  }

  /** A free that finds the page not full leaves every bucket and every link alone. */
  lemma FreeNotFullKeepsBuckets(s: SlebState, ptr: int)
    requires s.Valid() && FreeSpec(s, ptr).Ok?
    requires FreeIndex(s.base, ptr).Ok? && 0 <= FreeIndex(s.base, ptr).value < ENTRIES_PER_PAGE
    requires var i := FreeIndex(s.base, ptr).value;
      if TypeOf(s.metadata[i]).Tiny32? then !AllOnes(s.tinyBitfields[i]) else !AllOnes(s.metadata[i].extraBits)
    ensures var s' := FreeSpec(s, ptr).value;
      && s'.tinyBuckets == s.tinyBuckets && s'.mediumBuckets == s.mediumBuckets
      && forall j :: 0 <= j < ENTRIES_PER_PAGE ==> s'.metadata[j].bits == s.metadata[j].bits
  {
  }

  /**
   * A medium page that was full goes to the head of the bucket its decoded
   * tag names when that bucket was empty; no other bucket changes.
   */
  lemma FreeFullMediumPageLinks(s: SlebState, ptr: int)
    requires s.Valid() && FreeIndex(s.base, ptr).Ok? && 0 <= FreeIndex(s.base, ptr).value < ENTRIES_PER_PAGE
    requires var i := FreeIndex(s.base, ptr).value; var t := TypeOf(s.metadata[i]);
      && !t.Empty? && !t.Tiny32? && FreeBucket(t) < MEDIUM_BUCKETS
      && AllOnes(s.metadata[i].extraBits) && FreedSlot(ptr) < 64
      && s.mediumBuckets[FreeBucket(t)] == BUCKET_INDEX_NONE
    ensures FreeSpec(s, ptr).Ok?
    ensures var i := FreeIndex(s.base, ptr).value;
      FreeSpec(s, ptr).value.mediumBuckets == s.mediumBuckets[FreeBucket(TypeOf(s.metadata[i])) := i]
  {
  }

  /**
   * A page claimed for the 256-byte class reads back as Medium512, so when
   * it is freed from full it joins the 512-byte bucket (3), and the
   * 256-byte bucket (2) is left as it was.
   */
  lemma Class256PageJoinsBucket3(s: SlebState, ptr: int)
    requires s.Valid() && FreeIndex(s.base, ptr).Ok? && 0 <= FreeIndex(s.base, ptr).value < ENTRIES_PER_PAGE
    requires var i := FreeIndex(s.base, ptr).value;
      && TypeOf(s.metadata[i]) == Crossed(MediumType(2))
      && AllOnes(s.metadata[i].extraBits) && FreedSlot(ptr) < 64
      && s.mediumBuckets[3] == BUCKET_INDEX_NONE
    ensures FreeSpec(s, ptr).Ok?
    ensures FreeSpec(s, ptr).value.mediumBuckets[3] == FreeIndex(s.base, ptr).value
    ensures FreeSpec(s, ptr).value.mediumBuckets[2] == s.mediumBuckets[2]
  {
    FreeFullMediumPageLinks(s, ptr);
  }

  /** The offset of an address in its page, for a page-aligned `base`. */
  lemma PageOffset(base: int, index: int, offset: int)
    requires base % PAGESIZE == 0 && 0 <= index < ENTRIES_PER_PAGE && 0 <= offset < PAGESIZE
    ensures (PagePtr(base, index) + offset) % PAGESIZE == offset
  {
    var q := base / PAGESIZE;
    DivModUnique(PagePtr(base, index) + offset, PAGESIZE, q + index + 1, offset);
  }

  /**
   * On a 64-byte medium page, freeing slot `k` works on bit `2k`, not bit
   * `k`, of `extra_bits`, since the slot is taken as the offset over 32.
   */
  lemma Free64ByteSlotUsesBit2k(s: SlebState, index: int, k: int)
    requires s.Valid() && 0 <= index < ENTRIES_PER_PAGE && 0 <= k < 32
    requires TypeOf(s.metadata[index]) == Medium64
    ensures var ptr := PagePtr(s.base, index) + 64 * k;
      && FreedSlot(ptr) == 2 * k
      && FreeSpec(s, ptr) == FreeMediumSpec(s, index, 0, ptr)
  {
    var ptr := PagePtr(s.base, index) + 64 * k;
    PageOffset(s.base, index, 64 * k);
    PageIndexRoundTrip(s.base, index, 64 * k);
  }

  /** On any medium page, freeing an address in the upper half of the page panics: `1 << slot` overflows. */
  lemma FreeUpperHalfPanics(s: SlebState, index: int, offset: int)
    requires s.Valid() && 0 <= index < ENTRIES_PER_PAGE && 2048 <= offset < PAGESIZE
    requires var t := TypeOf(s.metadata[index]); !t.Empty? && !t.Tiny32?
    ensures FreeSpec(s, PagePtr(s.base, index) + offset) == Panic
  {
    PageOffset(s.base, index, offset);
    PageIndexRoundTrip(s.base, index, offset);
  }

  /**
   * Freeing slot 0 of a medium page whose bitmap is the fresh one of its
   * class clears that bit and nothing else.
   */
  lemma FreeFreshMediumSlot(s: SlebState, i: int, index: int)
    requires s.Valid() && 0 <= i < ENTRIES_PER_PAGE && 0 <= index < MEDIUM_BUCKETS
    requires TypeOf(s.metadata[i]) == Crossed(MediumType(index))
    requires s.metadata[i].extraBits == ClassBitmap(PageSlots(index))
    ensures FreeSpec(s, PagePtr(s.base, i)) ==
      Ok(s.(metadata := s.metadata[i := s.metadata[i].(extraBits := ClassBitmap(PageSlots(index))[0 := false])]))
  {
    PageOffset(s.base, i, 0);
    PageIndexRoundTrip(s.base, i, 0);
    assert !ClassBitmap(PageSlots(index))[1];
  }

  /**
   * Freeing the address a medium allocation just took from a fresh page
   * clears slot 0's bit and nothing else: the page is not full, so no
   * bucket changes.
   */
  lemma FreeAfterFreshMediumAlloc(s: SlebState, index: int)
    requires s.Valid() && 0 <= index < MEDIUM_BUCKETS && s.mediumBuckets[index] == BUCKET_INDEX_NONE
    requires FirstEmpty(s.metadata, 0).Some?
    ensures AllocMediumSpec(s, index).Returns?
    ensures var (s', p) := AllocMediumSpec(s, index).value;
      var i := FirstEmpty(s.metadata, 0).value;
      && s'.Valid()
      && FreeSpec(s', p) == Ok(s'.(metadata := s'.metadata[i := s'.metadata[i].(extraBits := ClassBitmap(PageSlots(index))[0 := false])]))
  {
    MediumFreshPage(s, index);
    var (s', p) := AllocMediumSpec(s, index).value;
    FreeFreshMediumSlot(s', FirstEmpty(s.metadata, 0).value, index);
  }

  /** Every free keeps `TinyQuiet`: a tiny page is never full, so a tiny free never links it. */
  lemma FreeKeepsTinyQuiet(s: SlebState, ptr: int)
    requires TinyQuiet(s) && FreeSpec(s, ptr).Ok?
    ensures TinyQuiet(FreeSpec(s, ptr).value)
  {
    FreeClearsSlot(s, ptr);
    var i := FreeIndex(s.base, ptr).value;
    if TypeOf(s.metadata[i]).Tiny32? {
      assert !AllOnes(s.tinyBitfields[i]) by {
        assert !s.tinyBitfields[i][TINY_ENTRIES];
      }
    }
  }

  /*
   * Where handed-out addresses lie
   */

  /** Past the metadata page and inside Sleb's 1 MiB block: one of the 255 data pages. */
  predicate InDataPages(base: int, p: int)
  {
    base + PAGESIZE <= p < base + ONE_MIB
  }

  lemma {:induction false} TinyScanInPages(s: SlebState, bucket: int, fuel: nat)
    requires s.Valid() && 0 <= bucket < U32_LIMIT
    requires TinyScan(s, bucket, fuel).Returns? && TinyScan(s, bucket, fuel).value.1.Some?
    ensures InDataPages(s.base, TinyScan(s, bucket, fuel).value.1.value)
    decreases fuel
  {
    var page := PagePtr(s.base, bucket);
    FindFreeSlotLowest(s.tinyBitfields[bucket], page);
    var t := TrailingOnes(s.tinyBitfields[bucket]);
    if t < TINY_ENTRIES && page + TINY_HEADER + TINY_SLOT * t != 0 {
    } else {
      NextIndexNeverNone(s.metadata[bucket].bits);
      TinyScanInPages(s, NextIndex(s.metadata[bucket].bits), fuel - 1);
    }
  }

  lemma {:induction false} MediumScanInPages(s: SlebState, index: int, bucket: int, fuel: nat)
    requires s.Valid() && 0 <= index < MEDIUM_BUCKETS && 0 <= bucket < U32_LIMIT
    requires MediumScan(s, index, bucket, fuel).Returns? && MediumScan(s, index, bucket, fuel).value.1.Some?
    ensures InDataPages(s.base, MediumScan(s, index, bucket, fuel).value.1.value)
    decreases fuel
  {
    var m := s.metadata[bucket];
    var slot := TrailingOnes(m.extraBits);
    if slot < 64 {
      assert 0 <= slot * SlotSize(index);
    } else {
      NextIndexNeverNone(m.bits);
      MediumScanInPages(s, index, NextIndex(m.bits), fuel - 1);
    }
  }

  lemma AllocTinyInDataPages(s: SlebState)
    requires s.Valid() && AllocTinySpec(s).Returns? && AllocTinySpec(s).value.1 != 0
    ensures AllocTinySpec(s).value.0.base == s.base && InDataPages(s.base, AllocTinySpec(s).value.1)
  {
    var sc := TinyScan(s, s.tinyBuckets[0], WALK_LIMIT);
    if sc.value.1.Some? {
      TinyScanInPages(s, s.tinyBuckets[0], WALK_LIMIT);
    } else {
      FindEmptyPageEffect(sc.value.0, Tiny32);
      var i := FindEmptyPageSpec(sc.value.0, Tiny32).1.value;
      FindFreeSlotLowest(Zeros(TINY_BITS), PagePtr(s.base, i));
      TrailingOnesUnique(Zeros(TINY_BITS), 0);
    }
  }

  lemma AllocMediumInDataPages(s: SlebState, index: int)
    requires s.Valid() && 0 <= index <= MEDIUM_BUCKETS
    requires AllocMediumSpec(s, index).Returns? && AllocMediumSpec(s, index).value.1 != 0
    ensures AllocMediumSpec(s, index).value.0.base == s.base && InDataPages(s.base, AllocMediumSpec(s, index).value.1)
  {
    var sc := MediumScan(s, index, s.mediumBuckets[index], WALK_LIMIT);
    if sc.value.1.Some? {
      MediumScanInPages(s, index, s.mediumBuckets[index], WALK_LIMIT);
    } else {
      FindEmptyPageEffect(sc.value.0, MediumType(index));
    }
  }

  /**
   * Every non-null address Sleb's `alloc` returns lies in one of its data
   * pages, so `within_bounds` holds for it and `free` maps it back to that
   * page's record.
   */
  lemma AllocInDataPages(s: SlebState, size: int)
    requires s.Valid() && 0 <= size
    requires AllocSpec(s, size).Returns? && AllocSpec(s, size).value.1 != 0
    ensures var (s', p) := AllocSpec(s, size).value;
      && s'.Valid() && s'.base == s.base && InDataPages(s.base, p)
      && WithinBounds(s.base, p) && FreeIndex(s.base, p).Ok?
  {
    if ClassOf(size).TinyClass? {
      AllocTinyInDataPages(s);
    } else {
      AllocMediumInDataPages(s, ClassOf(size).index);
    }
    FreeIndexInBounds(s.base, AllocSpec(s, size).value.1);
  }
}
