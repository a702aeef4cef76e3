/**
 * The kernel's `GlobalAlloc`: requests of at most 2048 bytes (the larger
 * of size and alignment) go to Sleb, which is started on first use inside
 * a 1 MiB block taken from the buddy allocator; larger requests go to the
 * buddy allocator. `dealloc` starts Sleb too, then sends an address
 * within Sleb's block to Sleb's `free` and any other to the buddy path.
 */
module GlobalAllocSpec {
  import opened Common
  import opened Bits
  import opened Buddy
  import BuddySpec
  import BuddyProperties
  import opened Sleb
  import SlebSpec
  import SlebProperties

  /** The buddy allocator and, once started, Sleb. */
  datatype Heap = Heap(buddy: BuddyState, sleb: Option<SlebSpec.SlebState>)
  {
    ghost predicate Valid()
    {
      buddy.Valid() && (sleb.Some? ==> sleb.value.Valid())
    }
  }

  /** The heap as the kernel starts: `BuddyAllocator::new()` and Sleb not yet started. */
  function InitialHeap(): (h: Heap)
    ensures h.Valid() && h.sleb.None?
  {
    Heap(BuddySpec.NewState(), None)
  }

  /** Sleb's request: 1 MiB with alignment 1. */
  const SLEB_SIZE: int := ONE_MIB
  const SLEB_ALIGN: int := 1

  /**
   * The lazy start of Sleb: the first use takes a 1 MiB block from the
   * buddy allocator and zero-fills its first page. When the buddy
   * allocator has no block, the fill writes through null and faults.
   */
  function StartSleb(h: Heap): (r: Outcome<Heap>)
    requires h.Valid()
    ensures r.Ok? ==> r.value.Valid() && r.value.sleb.Some?
  {
    if h.sleb.Some? then Ok(h)
    else
      match BuddySpec.AllocSpec(h.buddy, SLEB_SIZE, SLEB_ALIGN)
      case Panic => Panic
      case Ok((b, p)) =>
        if p == 0 then Panic
        else
          BuddyProperties.AllocNullIffEmpty(h.buddy, SLEB_SIZE, SLEB_ALIGN);
          BlockAddressAligned(p);
          Ok(Heap(b, Some(SlebSpec.InitState(p))))
  }

  /** A block address is a non-null, page-aligned address far below 2^64. */
  lemma BlockAddressAligned(p: int)
    requires exists i :: 0 <= i < NUM_BLOCKS && p == IndexToPtr(i)
    ensures 0 < p && p % PAGESIZE == 0 && p + ONE_MIB <= U64_LIMIT
  {
    var i :| 0 <= i < NUM_BLOCKS && p == IndexToPtr(i);
    DivModUnique(p, PAGESIZE, HEAP_START / PAGESIZE + i, 0);
  }

  /** `GlobalAlloc::alloc(layout)`. */
  function AllocSpec(h: Heap, size: int, align: int): (r: SlebSpec.Run<(Heap, int)>)
    requires h.Valid()
    requires 0 <= size <= 0x8000_0000_0000_0000 && 0 <= align <= 0x8000_0000_0000_0000
    ensures r.Returns? ==> r.value.0.Valid()
  {
    var m := Max(size, align);
    if m <= 2048 then
      match StartSleb(h)
      case Panic => SlebSpec.Panics
      case Ok(h1) =>
        match SlebSpec.AllocSpec(h1.sleb.value, m)
        case Panics => SlebSpec.Panics
        case Hangs => SlebSpec.Hangs
        case Returns((s, p)) => SlebSpec.Returns((h1.(sleb := Some(s)), p))
    else
      match BuddySpec.AllocSpec(h.buddy, size, align)
      case Panic => SlebSpec.Panics
      case Ok((b, p)) => SlebSpec.Returns((h.(buddy := b), p))
  }

  /** `GlobalAlloc::dealloc(ptr, layout)`; the layout is not used. */
  function DeallocSpec(h: Heap, ptr: int): (r: Outcome<Heap>)
    requires h.Valid() && 0 <= ptr < U64_LIMIT
    ensures r.Ok? ==> r.value.Valid()
  {
    match StartSleb(h)
    case Panic => Panic
    case Ok(h1) => Route(h1, ptr)
  }

  /** The routing of `dealloc` once Sleb is running: by address, to Sleb or to the buddy allocator. */
  function Route(h: Heap, ptr: int): (r: Outcome<Heap>)
    requires h.Valid() && h.sleb.Some? && 0 <= ptr < U64_LIMIT
    ensures r.Ok? ==> r.value.Valid()
    ensures r.Ok? && WithinBounds(h.sleb.value.base, ptr) ==> r.value.buddy == h.buddy
    ensures r.Ok? && !WithinBounds(h.sleb.value.base, ptr) ==> r.value.sleb == h.sleb
  {
    var s := h.sleb.value;
    if WithinBounds(s.base, ptr) then
      match SlebSpec.FreeSpec(s, ptr)
      case Panic => Panic
      case Ok(s') => Ok(h.(sleb := Some(s')))
    else
      match BuddySpec.DeallocSpec(h.buddy, ptr)
      case Panic => Panic
      case Ok(b) => Ok(h.(buddy := b))
  }

  /*
   * Properties
   */

  /** A 1 MiB request asks for order 8. */
  lemma SlebRequestIsOrder8()
    ensures RequestOrder(Max(SLEB_SIZE, SLEB_ALIGN)) == 8
  {
    assert Pow2(20) == ONE_MIB by {
      Pow2Constants();
      Pow2Add(10, 10);
    }
    BuddyProperties.RequestOrderOfPow2(20);
  }

  /**
   * On the kernel's starting heap, Sleb's block is the start of the heap:
   * the order-9 block 0 is split, its right half (block 256) goes onto
   * list 8, and block 0 is recorded at order 8. Sleb itself starts empty.
   */
  lemma SlebStartsAtHeapStart()
    ensures StartSleb(InitialHeap()).Ok?
    ensures var h := StartSleb(InitialHeap()).value;
      && h.sleb == Some(SlebSpec.InitState(HEAP_START))
      && h.buddy.blocks[0].order == 8 && !h.buddy.blocks[0].free
      && h.buddy.heads[8] == 256 && h.buddy.blocks[256].free && h.buddy.blocks[256].order == 8
  {
    SlebRequestIsOrder8();
    var s0 := BuddySpec.NewState();
    BuddyProperties.PopHeadEmpty(s0, 8);
    assert Pow2(8) == 256 by {
      Pow2Values();
    }
    var s1 := BuddySpec.PopHeadSpec(s0, 9).value.0;
    var s2 := BuddySpec.PushBlockSpec(s1, 8, 256).value;
    assert BuddySpec.SplitSpec(s1, 0, 8, 9) == Ok(s2);
  }

  /** After one tiny allocation on a fresh Sleb, the next Empty record is record 1. */
  lemma SecondEmptyRecord(s: SlebSpec.SlebState)
    requires s.Valid()
    requires SlebSpec.TypeOf(s.metadata[0]) == Tiny32 && SlebSpec.TypeOf(s.metadata[1]) == Empty
    ensures SlebSpec.FirstEmpty(s.metadata, 0) == Some(1)
  {
    assert SlebSpec.FirstEmpty(s.metadata, 1) == Some(1);
  }

  /**
   * The first two 8-byte allocations on the kernel's starting heap take
   * the first slot of two different pages: Sleb never puts a tiny page in
   * its bucket, so each tiny allocation claims a new page.
   */
  lemma FirstTinyAllocationsTakeNewPages()
    ensures var r1 := AllocSpec(InitialHeap(), 8, 8);
      && r1.Returns? && r1.value.1 == HEAP_START + PAGESIZE + TINY_HEADER
      && var r2 := AllocSpec(r1.value.0, 8, 8);
         r2.Returns? && r2.value.1 == HEAP_START + 2 * PAGESIZE + TINY_HEADER
  {
    SlebStartsAtHeapStart();
    var h1 := StartSleb(InitialHeap()).value;
    var s := SlebSpec.InitState(HEAP_START);
    assert SlebSpec.FirstEmpty(s.metadata, 0) == Some(0);
    SlebProperties.TinyFreshPage(s);
    var s1 := SlebSpec.AllocTinySpec(s).value.0;
    SecondEmptyRecord(s1);
    SlebProperties.TinyFreshPage(s1);
  }

  /** Once Sleb is running, starting it again changes nothing. */
  lemma StartSlebOnce(h: Heap)
    requires h.Valid()
    ensures StartSleb(h).Ok? ==> StartSleb(StartSleb(h).value) == StartSleb(h)
  {
  }

  /**
   * A small allocation that returns a non-null address hands out an
   * address inside Sleb's block, past its metadata page, so `dealloc`
   * sends it back to Sleb and leaves the buddy allocator alone.
   */
  lemma SmallAllocRoutedBack(h: Heap, size: int, align: int)
    requires h.Valid()
    requires 0 <= size <= 0x8000_0000_0000_0000 && 0 <= align <= 0x8000_0000_0000_0000
    requires Max(size, align) <= 2048
    requires AllocSpec(h, size, align).Returns? && AllocSpec(h, size, align).value.1 != 0
    ensures var (h', p) := AllocSpec(h, size, align).value;
      && h'.sleb.Some?
      && SlebProperties.InDataPages(h'.sleb.value.base, p)
      && WithinBounds(h'.sleb.value.base, p)
      && DeallocSpec(h', p) == (match SlebSpec.FreeSpec(h'.sleb.value, p)
                                case Panic => Panic
                                case Ok(s') => Ok(h'.(sleb := Some(s'))))
  {
    var h1 := StartSleb(h).value;
    SlebProperties.AllocInDataPages(h1.sleb.value, Max(size, align));
  }
}
