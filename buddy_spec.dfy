/**
 * The block lists of the buddy allocator and its two heap paths, as
 * functions on `BuddyState` values. Each follows the source's statements in
 * order, including its writes through stale or aliased indices; a panic of
 * the source (failed index, failed `debug_assert!`) is the outcome `Panic`,
 * after which the state is of no further interest.
 */
module BuddySpec {
  import opened Common
  import opened Bits
  import opened Buddy

  /**
   * `BuddyAllocator::new`. The source prepares an array with block 0 free
   * at order 9 but then returns a fresh copy of the default record, so every
   * record is `(NO_BLOCK, NO_BLOCK, 1, not free)`; only the head of order 9
   * is set, to block 0.
   */
  function NewState(): (s: BuddyState)
    ensures s.Valid()
    ensures s.heads[NUM_ORDERS - 1] == 0 && !s.blocks[0].free
  {
    BuddyState(seq(NUM_BLOCKS, _ => Block(NO_BLOCK, NO_BLOCK, 1, false)),
               seq(NUM_ORDERS, k => if k == NUM_ORDERS - 1 then 0 else NO_BLOCK))
  }

  /**
   * `push_block`: make `index` the head of list `order`, free, of that order,
   * linked in front of the old head. Panics when `index` is already free
   * (the `debug_assert!`) or out of range, or when `order` has no list.
   */
  function PushBlockSpec(s: BuddyState, order: int, index: int): (r: Outcome<BuddyState>)
    requires s.Valid() && 0 <= order && 0 <= index
    ensures r.Ok? <==> index < NUM_BLOCKS && !s.blocks[index].free && order < NUM_ORDERS
    ensures r.Ok? ==> r.value.Valid()
  {
    if index >= NUM_BLOCKS || s.blocks[index].free || order >= NUM_ORDERS then Panic
    else
      var head := s.heads[order];
      var blocks := if head != NO_BLOCK then s.blocks[head := s.blocks[head].(previous := index)] else s.blocks;
      Ok(BuddyState(blocks[index := blocks[index].(next := head, order := order, free := true)],
                    s.heads[order := index]))
  }

  /**
   * `remove_block`: mark `index` not free and unlink it from its neighbours;
   * list `order`'s head moves on only when `index` had no predecessor and
   * was that head. Panics when `index` is not free or out of range, or when
   * the head of a missing list is read.
   */
  function RemoveBlockSpec(s: BuddyState, order: int, index: int): (r: Outcome<BuddyState>)
    requires s.Valid() && 0 <= order && 0 <= index
    ensures r.Ok? <==> index < NUM_BLOCKS && s.blocks[index].free
                       && (s.blocks[index].previous != NO_BLOCK || order < NUM_ORDERS)
    ensures r.Ok? ==> r.value.Valid()
  {
    if index >= NUM_BLOCKS || !s.blocks[index].free then Panic
    else
      var b1 := s.blocks[index := s.blocks[index].(free := false)];
      var prev, next := b1[index].previous, b1[index].next;
      if prev == NO_BLOCK && order >= NUM_ORDERS then Panic
      else
        var b2 := if prev != NO_BLOCK then
                    var t := b1[index := b1[index].(previous := NO_BLOCK)]; t[prev := t[prev].(next := next)]
                  else b1;
        var heads := if prev == NO_BLOCK && s.heads[order] == index then s.heads[order := next] else s.heads;
        var b3 := if next != NO_BLOCK then
                    var t := b2[index := b2[index].(next := NO_BLOCK)]; t[next := t[next].(previous := prev)]
                  else b2;
        Ok(BuddyState(b3, heads))
  }

  /**
   * `pop_head`: take the head of list `order`. The source marks it not free
   * and then stores its successor in `heads[head_index]`, the slot named by
   * the block's index, not in `heads[order]`; that write panics for a block
   * index of 10 or more.
   */
  function PopHeadSpec(s: BuddyState, order: int): (r: Outcome<(BuddyState, Option<int>)>)
    requires s.Valid() && 0 <= order
    ensures r.Ok? ==> r.value.0.Valid()
    ensures r.Ok? && r.value.1.Some? ==> 0 <= r.value.1.value < NUM_BLOCKS
  {
    if order >= NUM_ORDERS then Panic
    else
      var head := s.heads[order];
      if head == NO_BLOCK then Ok((s, None))
      else
        var blocks := s.blocks[head := s.blocks[head].(free := false)];
        if head >= NUM_ORDERS then Panic
        else Ok((BuddyState(blocks, s.heads[head := blocks[head].next]), Some(head)))
  }

  /** Half of a block below the largest order fits a `u16` index. */
  lemma HalfBlockFits(index: int, down: int)
    requires 0 <= index < NUM_BLOCKS && 1 <= down < NUM_ORDERS
    ensures index + Pow2(down - 1) < NUM_BLOCKS + 512
  {
    Pow2Monotone(down - 1, NUM_ORDERS - 1);
    assert Pow2(9) == 512;
  }

  /**
   * The `downto` loop of `alloc`, from `down` to `target + 1`: each pass
   * pushes the right half of the order-`d` block at `index` onto list `d - 1`.
   */
  function SplitSpec(s: BuddyState, index: int, target: int, down: int): (r: Outcome<BuddyState>)
    requires s.Valid() && 0 <= index < NUM_BLOCKS && 0 <= target && down < NUM_ORDERS
    ensures r.Ok? ==> r.value.Valid()
    decreases down - target
  {
    if down <= target then Ok(s)
    else
      HalfBlockFits(index, down);
      var right := Split(down, index).1;
      match PushBlockSpec(s, down - 1, right)
      case Panic => Panic
      case Ok(s1) => SplitSpec(s1, index, target, down - 1)
  }

  /**
   * The `for` loop of `alloc` from `order` on: pop the first non-empty list
   * above `target`, split the block down to `target` and return its
   * address, or return null (0) once every list has been tried.
   */
  function ScanSpec(s: BuddyState, target: int, order: int): (r: Outcome<(BuddyState, int)>)
    requires s.Valid() && 0 <= target < order
    ensures r.Ok? ==> r.value.0.Valid()
    decreases NUM_ORDERS - order
  {
    if order >= NUM_ORDERS then Ok((s, 0))
    else
      match PopHeadSpec(s, order)
      case Panic => Panic
      case Ok((s1, None)) => ScanSpec(s1, target, order + 1)
      case Ok((s1, Some(index))) =>
        match SplitSpec(s1, index, target, order)
        case Panic => Panic
        case Ok(s2) =>
          Ok((BuddyState(s2.blocks[index := s2.blocks[index].(order := target)], s2.heads), IndexToPtr(index)))
  }

  /** The buddy path of `GlobalAlloc::alloc`, for a layout Sleb does not take. */
  function AllocSpec(s: BuddyState, size: int, align: int): (r: Outcome<(BuddyState, int)>)
    requires s.Valid()
    requires 0 <= size <= 0x8000_0000_0000_0000 && 0 <= align <= 0x8000_0000_0000_0000
    requires Max(size, align) > 2048
    ensures r.Ok? ==> r.value.0.Valid()
  {
    var target := RequestOrder(Max(size, align));
    match PopHeadSpec(s, target)
    case Panic => Panic
    case Ok((s1, Some(index))) => Ok((s1, IndexToPtr(index)))
    case Ok((s1, None)) => ScanSpec(s1, target, target + 1)
  }

  /**
   * The coalescing loop of `dealloc` from `order` on. The buddy is always
   * computed from the freed block's own address `ptr`, and its recorded
   * order is never compared with `order`.
   */
  function CoalesceSpec(s: BuddyState, ptr: int, index: int, order: int): (r: Outcome<BuddyState>)
    requires s.Valid() && 0 <= index < NUM_BLOCKS && HEAP_START <= ptr < HEAP_END
    requires 0 <= order <= NUM_ORDERS
    ensures r.Ok? ==> r.value.Valid()
    decreases NUM_ORDERS - order
  {
    match GetBuddyIndex(order, ptr)
    case None => PushBlockSpec(s, order, index)
    case Some(buddy) =>
      if !s.blocks[buddy].free then PushBlockSpec(s, order, index)
      else
        match RemoveBlockSpec(s, order, buddy)
        case Panic => Panic
        case Ok(s1) => CoalesceSpec(s1, ptr, index, order + 1)
  }

  /** The buddy path of `GlobalAlloc::dealloc`, for an address Sleb does not own. */
  function DeallocSpec(s: BuddyState, ptr: int): (r: Outcome<BuddyState>)
    requires s.Valid() && 0 <= ptr < U64_LIMIT
    ensures r.Ok? ==> r.value.Valid()
  {
    if ptr < HEAP_START then Panic
    else
      var index := GetBlockIndex(ptr);
      if index >= NUM_BLOCKS then Panic
      else CoalesceSpec(s, ptr, index, s.blocks[index].order)
  }
}
