/** What the list operations and the two heap paths of the buddy allocator do, stated on their own. */
module BuddyProperties {
  import opened Common
  import opened Bits
  import opened Buddy
  import opened BuddySpec

  /*
   * The list operations, field by field
   */

  /**
   * `push_block` makes `index` the head of list `order`, free, of that order,
   * followed by the old head, whose `previous` now names `index`. Every other
   * record is untouched, and so is `index`'s own `previous` unless it was
   * already the head.
   */
  lemma PushBlockEffect(s: BuddyState, order: int, index: int)
    requires s.Valid() && 0 <= order && 0 <= index
    requires PushBlockSpec(s, order, index).Ok?
    ensures var s' := PushBlockSpec(s, order, index).value;
      var head := s.heads[order];
      && s'.heads == s.heads[order := index]
      && s'.blocks[index] == Block(if head == index then index else s.blocks[index].previous, head, order, true)
      && (head != NO_BLOCK && head != index ==> s'.blocks[head] == s.blocks[head].(previous := index))
      && (forall j :: 0 <= j < NUM_BLOCKS && j != index && j != head ==> s'.blocks[j] == s.blocks[j])
  {
  }

  /**
   * `remove_block`, field by field, aliasing included. The block ends not
   * free with no successor; its `previous` is cleared, except that a block
   * that was its own successor gets its predecessor back (the second write
   * goes through `next_index == block_index`). The predecessor's `next`
   * skips the block, and the successor's `previous` names the predecessor;
   * when predecessor and successor are one record, both writes land on it.
   * The list head moves only when the block had no predecessor and was the
   * head, and every other record is untouched. So a record that
   * `push_block` linked to itself (pushed onto a list it already heads)
   * comes out with `previous == index`.
   */
  lemma RemoveBlockEffect(s: BuddyState, order: int, index: int)
    requires s.Valid() && 0 <= order && 0 <= index
    requires RemoveBlockSpec(s, order, index).Ok?
    ensures var s' := RemoveBlockSpec(s, order, index).value;
      var prev, next := s.blocks[index].previous, s.blocks[index].next;
      && s'.blocks[index] == Block(if next == index then prev else NO_BLOCK, NO_BLOCK, s.blocks[index].order, false)
      && (prev != NO_BLOCK && prev != index ==>
            s'.blocks[prev] == if next == prev then s.blocks[prev].(previous := prev, next := next)
                               else s.blocks[prev].(next := next))
      && (next != NO_BLOCK && next != index && next != prev ==> s'.blocks[next] == s.blocks[next].(previous := prev))
      && s'.heads == (if prev == NO_BLOCK && s.heads[order] == index then s.heads[order := next] else s.heads)
      && (forall j :: 0 <= j < NUM_BLOCKS && j != index && j != prev && j != next ==> s'.blocks[j] == s.blocks[j])
  {
  }

  /** A block pushed onto the list it already heads is linked to itself, and removing it leaves `previous` naming itself. */
  lemma SelfLinkedRemove(s: BuddyState, order: int, index: int)
    requires s.Valid() && 0 <= order < NUM_ORDERS && 0 <= index < NUM_BLOCKS
    requires s.heads[order] == index && !s.blocks[index].free
    ensures PushBlockSpec(s, order, index).Ok?
    ensures var s1 := PushBlockSpec(s, order, index).value;
      && s1.blocks[index].previous == index && s1.blocks[index].next == index
      && RemoveBlockSpec(s1, order, index).Ok?
      && RemoveBlockSpec(s1, order, index).value.blocks[index] == Block(index, NO_BLOCK, order, false)
  {
    PushBlockEffect(s, order, index);
    RemoveBlockEffect(PushBlockSpec(s, order, index).value, order, index);
  }

  /** `pop_head` returns nothing, and changes nothing, exactly when list `order` is empty. */
  lemma PopHeadEmpty(s: BuddyState, order: int)
    requires s.Valid() && 0 <= order
    ensures PopHeadSpec(s, order) == Ok((s, None)) <==> order < NUM_ORDERS && s.heads[order] == NO_BLOCK
    ensures PopHeadSpec(s, order).Ok? && PopHeadSpec(s, order).value.1.None? ==> PopHeadSpec(s, order) == Ok((s, None))
  {
  }

  /**
   * A successful `pop_head` returns the head of list `order`, marks it not
   * free and stores its successor in `heads[head]`; nothing else changes.
   */
  lemma PopHeadTaken(s: BuddyState, order: int)
    requires s.Valid() && 0 <= order
    requires PopHeadSpec(s, order).Ok? && PopHeadSpec(s, order).value.1.Some?
    ensures var (s', h) := PopHeadSpec(s, order).value;
      && h.value == s.heads[order]
      && s'.blocks == s.blocks[h.value := s.blocks[h.value].(free := false)]
      && s'.heads == s.heads[h.value := s.blocks[h.value].next]
  {
  }

  /**
   * Because `pop_head` writes `heads[head]` instead of `heads[order]`, the
   * block it hands out stays at the head of its list whenever its index is
   * not the order itself.
   */
  lemma PopHeadKeepsHead(s: BuddyState, order: int)
    requires s.Valid() && 0 <= order
    requires PopHeadSpec(s, order).Ok? && PopHeadSpec(s, order).value.1.Some?
    requires PopHeadSpec(s, order).value.1.value != order
    ensures PopHeadSpec(s, order).value.0.heads[order] == PopHeadSpec(s, order).value.1.value
  {
  }

  /*
   * Allocation
   */

  /**
   * The scan returns null exactly when every list from `order` up is empty,
   * and then it has changed nothing; a block it hands out is a heap address.
   */
  lemma {:induction false} ScanNullIffEmpty(s: BuddyState, target: int, order: int)
    requires s.Valid() && 0 <= target < order
    ensures var r := ScanSpec(s, target, order);
      (r.Ok? && r.value.1 == 0) <==> (forall o :: order <= o < NUM_ORDERS ==> s.heads[o] == NO_BLOCK)
    ensures (forall o :: order <= o < NUM_ORDERS ==> s.heads[o] == NO_BLOCK) ==> ScanSpec(s, target, order) == Ok((s, 0))
    ensures var r := ScanSpec(s, target, order);
      r.Ok? && r.value.1 != 0 ==> exists i :: 0 <= i < NUM_BLOCKS && r.value.1 == IndexToPtr(i)
    decreases NUM_ORDERS - order
  {
    if order < NUM_ORDERS {
      PopHeadEmpty(s, order);
      match PopHeadSpec(s, order)
      case Panic =>
      case Ok((s1, None)) =>
        ScanNullIffEmpty(s1, target, order + 1);
      case Ok((s1, Some(index))) =>
        assert IndexToPtr(index) >= HEAP_START;
    }
  }

  /**
   * `alloc` on the buddy path returns null exactly when no list from the
   * request's order up holds a block (and the order exists), and then the
   * state is unchanged; otherwise it hands out a block address or panics.
   */
  lemma AllocNullIffEmpty(s: BuddyState, size: int, align: int)
    requires s.Valid()
    requires 0 <= size <= 0x8000_0000_0000_0000 && 0 <= align <= 0x8000_0000_0000_0000
    requires Max(size, align) > 2048
    ensures var target := RequestOrder(Max(size, align));
      var r := AllocSpec(s, size, align);
      && ((r.Ok? && r.value.1 == 0)
          <==> target < NUM_ORDERS && forall o :: target <= o < NUM_ORDERS ==> s.heads[o] == NO_BLOCK)
      && (r.Ok? && r.value.1 == 0 ==> r.value.0 == s)
      && (r.Ok? && r.value.1 != 0 ==> exists i :: 0 <= i < NUM_BLOCKS && r.value.1 == IndexToPtr(i))
  {
    var target := RequestOrder(Max(size, align));
    PopHeadEmpty(s, target);
    match PopHeadSpec(s, target)
    case Panic =>
    case Ok((s1, None)) =>
      ScanNullIffEmpty(s1, target, target + 1);
    case Ok((s1, Some(index))) =>
      assert IndexToPtr(index) >= HEAP_START;
  }

  /** The split loop leaves the heads of the orders it does not split into as they were. */
  lemma {:induction false} SplitKeepsHeads(s: BuddyState, index: int, target: int, down: int, o: int)
    requires s.Valid() && 0 <= index < NUM_BLOCKS && 0 <= target && down < NUM_ORDERS
    requires SplitSpec(s, index, target, down).Ok?
    requires 0 <= o < NUM_ORDERS && !(target <= o < down)
    ensures SplitSpec(s, index, target, down).value.heads[o] == s.heads[o]
    decreases down - target
  {
    if down > target {
      HalfBlockFits(index, down);
      var right := index + Pow2(down - 1);
      PushBlockEffect(s, down - 1, right);
      SplitKeepsHeads(PushBlockSpec(s, down - 1, right).value, index, target, down - 1, o);
    }
  }

  /**
   * After the split loop, for every order `e` from `target` to `down - 1`,
   * the right half `index + 2^e` is the head of list `e`, free and of order
   * `e`.
   */
  lemma {:induction false} SplitPushesHalf(s: BuddyState, index: int, target: int, down: int, e: int)
    requires s.Valid() && 0 <= index < NUM_BLOCKS && 0 <= target && down < NUM_ORDERS
    requires SplitSpec(s, index, target, down).Ok?
    requires target <= e < down
    ensures index + Pow2(e) < NUM_BLOCKS
    ensures var s' := SplitSpec(s, index, target, down).value;
      && s'.heads[e] == index + Pow2(e)
      && s'.blocks[index + Pow2(e)].free
      && s'.blocks[index + Pow2(e)].order == e
    decreases down - target
  {
    HalfBlockFits(index, down);
    var right := index + Pow2(down - 1);
    if e < down - 1 {
      var s1 := PushBlockSpec(s, down - 1, right).value;
      assert SplitSpec(s1, index, target, down - 1) == SplitSpec(s, index, target, down);
      SplitPushesHalf(s1, index, target, down - 1, e);
    } else {
      SplitTopHalf(s, index, target, down);
    }
  }

  /** The first pass of the split loop pushes the right half of order `down - 1`, and nothing later moves it. */
  lemma SplitTopHalf(s: BuddyState, index: int, target: int, down: int)
    requires s.Valid() && 0 <= index < NUM_BLOCKS && 0 <= target < down < NUM_ORDERS
    requires SplitSpec(s, index, target, down).Ok?
    ensures index + Pow2(down - 1) < NUM_BLOCKS
    ensures var s', right := SplitSpec(s, index, target, down).value, index + Pow2(down - 1);
      s'.heads[down - 1] == right && s'.blocks[right].free && s'.blocks[right].order == down - 1
  {
    HalfBlockFits(index, down);
    var right := index + Pow2(down - 1);
    var s1 := PushBlockSpec(s, down - 1, right).value;
    assert s1.heads[down - 1] == right && s1.blocks[right].free && s1.blocks[right].order == down - 1 by {
      PushBlockEffect(s, down - 1, right);
    }
    SplitKeepsHalf(s1, index, target, down - 1);
  }

  /** A free block of order `down` at the head of its list stays so through the split loop from `down`. */
  lemma SplitKeepsHalf(s: BuddyState, index: int, target: int, down: int)
    requires s.Valid() && 0 <= index < NUM_BLOCKS && 0 <= target <= down < NUM_ORDERS - 1
    requires SplitSpec(s, index, target, down).Ok?
    requires index + Pow2(down) < NUM_BLOCKS
    requires s.heads[down] == index + Pow2(down)
    requires s.blocks[index + Pow2(down)].free && s.blocks[index + Pow2(down)].order == down
    ensures var s', right := SplitSpec(s, index, target, down).value, index + Pow2(down);
      s'.heads[down] == right && s'.blocks[right].free && s'.blocks[right].order == down
  {
    var right := index + Pow2(down);
    SplitKeepsHeads(s, index, target, down, down);
    RightHalfNotBelow(index, target, down);
    SplitKeepsOthers(s, index, target, down, right);
  }

  /** `j` is none of the right halves `index + 2^e`, `target <= e < down`, that the split loop pushes. */
  predicate NotAHalf(j: int, index: int, target: int, down: int)
    requires 0 <= target
    decreases down - target
  {
    down <= target || (j != index + Pow2(down - 1) && NotAHalf(j, index, target, down - 1))
  }

  /** The right half at order `down` is none of the smaller right halves. */
  lemma {:induction false} RightHalfNotBelow(index: int, target: int, down: int)
    requires 0 <= target && 0 <= down
    ensures NotAHalf(index + Pow2(down), index, target, down)
    decreases down - target
  {
    if down > target {
      RightHalfNotBelowStep(index, target, down, down - 1);
    }
  }

  lemma {:induction false} RightHalfNotBelowStep(index: int, target: int, top: int, down: int)
    requires 0 <= target && 0 <= down < top
    ensures NotAHalf(index + Pow2(top), index, target, down + 1)
    decreases down - target
  {
    Pow2Monotone(down + 1, top);
    if down > target {
      RightHalfNotBelowStep(index, target, top, down - 1);
    }
  }

  /** The split loop changes no record other than the pushed halves, except for `previous` links. */
  lemma {:induction false} SplitKeepsOthers(s: BuddyState, index: int, target: int, down: int, j: int)
    requires s.Valid() && 0 <= index < NUM_BLOCKS && 0 <= target && down < NUM_ORDERS
    requires SplitSpec(s, index, target, down).Ok?
    requires 0 <= j < NUM_BLOCKS && NotAHalf(j, index, target, down)
    ensures var b, b' := s.blocks[j], SplitSpec(s, index, target, down).value.blocks[j];
      b'.next == b.next && b'.order == b.order && b'.free == b.free
    decreases down - target
  {
    if down > target {
      HalfBlockFits(index, down);
      var right := index + Pow2(down - 1);
      PushBlockEffect(s, down - 1, right);
      SplitKeepsOthers(PushBlockSpec(s, down - 1, right).value, index, target, down - 1, j);
    }
  }

  /**
   * What the scan hands out: block `index`, popped from some list `o` above
   * `target`, now recorded at order `target` and not free, its address
   * returned, and each right half `index + 2^e`, `target <= e < o`, free at
   * the head of list `e`.
   */
  ghost predicate HandedOut(s': BuddyState, ptr: int, target: int, o: int, index: int)
    requires s'.Valid() && 0 <= target
  {
    && 0 <= index < NUM_BLOCKS && target < o < NUM_ORDERS
    && ptr == IndexToPtr(index)
    && s'.blocks[index].order == target && !s'.blocks[index].free
    && forall e :: target <= e < o ==>
         && index + Pow2(e) < NUM_BLOCKS
         && s'.heads[e] == index + Pow2(e)
         && s'.blocks[index + Pow2(e)].free && s'.blocks[index + Pow2(e)].order == e
  }

  /** The first list from `from` on that holds a block, or `NUM_ORDERS` when none does. */
  function FirstNonEmpty(s: BuddyState, from: int): (o: int)
    requires s.Valid() && 0 <= from <= NUM_ORDERS
    ensures from <= o <= NUM_ORDERS
    ensures o < NUM_ORDERS ==> s.heads[o] != NO_BLOCK
    ensures forall k :: from <= k < o ==> s.heads[k] == NO_BLOCK
    decreases NUM_ORDERS - from
  {
    if from == NUM_ORDERS || s.heads[from] != NO_BLOCK then from else FirstNonEmpty(s, from + 1)
  }

  /**
   * A scan that returns a block took the head of the first non-empty list
   * from `order` up (every list before it was empty) and split it down to
   * the requested order.
   */
  lemma {:induction false} ScanHandsOut(s: BuddyState, target: int, order: int)
    requires s.Valid() && 0 <= target < order
    requires ScanSpec(s, target, order).Ok? && ScanSpec(s, target, order).value.1 != 0
    ensures order < NUM_ORDERS
    ensures var (s', ptr) := ScanSpec(s, target, order).value;
      var o := FirstNonEmpty(s, order);
      o < NUM_ORDERS && HandedOut(s', ptr, target, o, s.heads[o])
    decreases NUM_ORDERS - order
  {
    PopHeadEmpty(s, order);
    match PopHeadSpec(s, order)
    case Ok((s1, None)) =>
      ScanHandsOut(s1, target, order + 1);
    case Ok((s1, Some(index))) =>
      PopHeadTaken(s, order);
      assert !s1.blocks[index].free;
      SplitHandsOut(s1, index, target, order);
  }

  /**
   * `alloc` on the buddy path: when the list of the request's order holds a
   * block, its head is popped and its address returned (the pop panics for
   * a head index of 10 or more); otherwise the scan of the larger lists
   * decides.
   */
  lemma AllocTakesHead(s: BuddyState, size: int, align: int)
    requires s.Valid()
    requires 0 <= size <= 0x8000_0000_0000_0000 && 0 <= align <= 0x8000_0000_0000_0000
    requires Max(size, align) > 2048
    ensures var t := RequestOrder(Max(size, align));
      t < NUM_ORDERS && s.heads[t] != NO_BLOCK ==>
        AllocSpec(s, size, align) ==
          if s.heads[t] >= NUM_ORDERS then Panic
          else Ok((PopHeadSpec(s, t).value.0, IndexToPtr(s.heads[t])))
    ensures var t := RequestOrder(Max(size, align));
      t < NUM_ORDERS && s.heads[t] == NO_BLOCK ==> AllocSpec(s, size, align) == ScanSpec(s, t, t + 1)
  {
  }

  /** One scan step that found block `index` at list `order`. */
  lemma SplitHandsOut(s1: BuddyState, index: int, target: int, order: int)
    requires s1.Valid() && 0 <= index < NUM_BLOCKS && 0 <= target < order < NUM_ORDERS
    requires !s1.blocks[index].free
    requires SplitSpec(s1, index, target, order).Ok?
    ensures var s2 := SplitSpec(s1, index, target, order).value;
      HandedOut(BuddyState(s2.blocks[index := s2.blocks[index].(order := target)], s2.heads), IndexToPtr(index), target, order, index)
  {
    var s2 := SplitSpec(s1, index, target, order).value;
    var s' := BuddyState(s2.blocks[index := s2.blocks[index].(order := target)], s2.heads);
    assert !s2.blocks[index].free by {
      IndexNotAHalf(index, target, order);
      SplitKeepsOthers(s1, index, target, order, index);
    }
    forall e | target <= e < order
      ensures index + Pow2(e) < NUM_BLOCKS
      ensures s'.heads[e] == index + Pow2(e)
      ensures s'.blocks[index + Pow2(e)].free && s'.blocks[index + Pow2(e)].order == e
    {
      SplitPushesHalf(s1, index, target, order, e);
    }
  }

  /** The kept block is none of the halves the split loop pushes. */
  lemma {:induction false} IndexNotAHalf(index: int, target: int, down: int)
    requires 0 <= target
    ensures NotAHalf(index, index, target, down)
    decreases down - target
  {
    if down > target {
      IndexNotAHalf(index, target, down - 1);
    }
  }

  /** `2^k - 1` has exactly `k` significant bits. */
  lemma {:induction false} BitLengthBelowPow2(k: nat)
    ensures BitLength(Pow2(k) - 1) == k
  {
    if k > 0 {
      BitLengthBelowPow2(k - 1);
      assert (Pow2(k) - 1) / 2 == Pow2(k - 1) - 1;
    }
  }

  /** A request of exactly `2^k` bytes, `k >= 12`, asks for order `k - 12`. */
  lemma RequestOrderOfPow2(k: nat)
    requires k >= START_ORDER
    ensures RequestOrder(Pow2(k)) == k - START_ORDER
  {
    BitLengthBelowPow2(k);
  }

  /** A 2 MiB request asks for the largest order, 9. */
  lemma TwoMiBIsOrder9()
    ensures RequestOrder(0x20_0000) == NUM_ORDERS - 1
  {
    Pow2Constants();
    assert Pow2(21) == 0x20_0000 by {
      assert 2 * Pow2(21) == Pow2(22);
    }
    RequestOrderOfPow2(21);
  }

  /**
   * Two 2 MiB allocations on a fresh allocator both return the start of the
   * heap: `pop_head` writes the successor of block 0 into `heads[0]`, so
   * `heads[9]` still names block 0 after it was handed out.
   */
  lemma FreshAllocatorHandsOutTwice()
    ensures var r1 := AllocSpec(NewState(), 0x20_0000, 1);
      && r1.Ok? && r1.value.1 == HEAP_START
      && var r2 := AllocSpec(r1.value.0, 0x20_0000, 1);
         r2.Ok? && r2.value.1 == HEAP_START
  {
    TwoMiBIsOrder9();
    var s0 := NewState();
    var s1 := AllocSpec(s0, 0x20_0000, 1).value.0;
    PopHeadKeepsHead(s0, NUM_ORDERS - 1);
    assert s1.heads[NUM_ORDERS - 1] == 0;
  }

  /*
   * Freeing
   */

  /** The buddy `get_buddy_index` names is never the freed block itself. */
  lemma BuddyIsOtherBlock(order: nat, ptr: int)
    requires order <= NUM_ORDERS && HEAP_START <= ptr < HEAP_END
    ensures GetBuddyIndex(order, ptr).Some? ==> GetBuddyIndex(order, ptr).value != GetBlockIndex(ptr)
  {
    var shifted := ptr - HEAP_START;
    var half := Pow2(order + START_ORDER);
    Pow2Add(order, START_ORDER);
    Pow2Constants();
    var pk := Pow2(order);
    assert half == pk * PAGESIZE;
    if GetBuddyIndex(order, ptr).Some? {
      var q := shifted / PAGESIZE;
      var r := shifted % PAGESIZE;
      assert Pow2(order + 1 + START_ORDER) == 2 * half;
      if shifted % (2 * half) == 0 {
        assert shifted + half == (q + pk) * PAGESIZE + r;
        DivModUnique(shifted + half, PAGESIZE, q + pk, r);
      } else {
        assert shifted - half == (q - pk) * PAGESIZE + r;
        DivModUnique(shifted - half, PAGESIZE, q - pk, r);
      }
    }
  }

  /** `remove_block` clears the `free` flag of the removed block only, and changes no block's order. */
  lemma RemoveKeepsOthersFree(s: BuddyState, order: int, index: int, other: int)
    requires s.Valid() && 0 <= order && 0 <= index
    requires RemoveBlockSpec(s, order, index).Ok?
    requires 0 <= other < NUM_BLOCKS
    ensures other != index ==> RemoveBlockSpec(s, order, index).value.blocks[other].free == s.blocks[other].free
    ensures RemoveBlockSpec(s, order, index).value.blocks[other].order == s.blocks[other].order
  {
  }

  /** Two values with the same quotient lie less than the divisor apart. */
  lemma SameQuotientClose(x: int, y: int, d: int)
    requires 0 <= x && 0 <= y && d > 0 && x / d == y / d
    ensures x - y < d && y - x < d
  {
    assert x == d * (x / d) + x % d;
    assert y == d * (y / d) + y % d;
  }

  /**
   * The buddies `get_buddy_index` names for one address at two different
   * orders are different blocks: their addresses differ by a sum or a
   * difference of two distinct powers of two of at least a page.
   */
  lemma BuddiesDistinct(ptr: int, a: nat, b: nat)
    requires HEAP_START <= ptr < HEAP_END && a < b <= NUM_ORDERS
    requires GetBuddyIndex(a, ptr).Some? && GetBuddyIndex(b, ptr).Some?
    ensures GetBuddyIndex(a, ptr).value != GetBuddyIndex(b, ptr).value
  {
    var shifted := ptr - HEAP_START;
    var ha, hb := Pow2(a + START_ORDER), Pow2(b + START_ORDER);
    assert Pow2(a + 1 + START_ORDER) == 2 * ha;
    assert Pow2(b + 1 + START_ORDER) == 2 * hb;
    var va := if shifted % (2 * ha) == 0 then shifted + ha else shifted - ha;
    var vb := if shifted % (2 * hb) == 0 then shifted + hb else shifted - hb;
    assert GetBuddyIndex(a, ptr).value == va / PAGESIZE;
    assert GetBuddyIndex(b, ptr).value == vb / PAGESIZE;
    Pow2Monotone(a + 1 + START_ORDER, b + START_ORDER);
    Pow2Monotone(START_ORDER, a + START_ORDER);
    Pow2Constants();
    assert va - vb >= PAGESIZE || vb - va >= PAGESIZE;
    if va / PAGESIZE == vb / PAGESIZE {
      SameQuotientClose(va, vb, PAGESIZE);
    }
  }

  /**
   * The merge loop of `dealloc` on a block whose record is already free
   * always panics: it never clears that block's flag, so the final
   * `push_block` fails its `debug_assert!`.
   */
  lemma {:induction false} CoalesceFreedStaysFree(s: BuddyState, ptr: int, index: int, order: int)
    requires s.Valid() && HEAP_START <= ptr < HEAP_END && index == GetBlockIndex(ptr) < NUM_BLOCKS
    requires 0 <= order <= NUM_ORDERS
    requires s.blocks[index].free
    ensures CoalesceSpec(s, ptr, index, order) == Panic
    decreases NUM_ORDERS - order
  {
    BuddyIsOtherBlock(order, ptr);
    match GetBuddyIndex(order, ptr)
    case None =>
    case Some(buddy) =>
      if s.blocks[buddy].free {
        match RemoveBlockSpec(s, order, buddy)
        case Panic =>
        case Ok(s1) =>
          RemoveKeepsOthersFree(s, order, buddy, index);
          CoalesceFreedStaysFree(s1, ptr, index, order + 1);
      }
  }

  /**
   * Freeing a block whose record is already free panics: the final
   * `push_block` fails its `debug_assert!`.
   */
  lemma DoubleFreePanics(s: BuddyState, ptr: int)
    requires s.Valid() && HEAP_START <= ptr < HEAP_END
    requires s.blocks[GetBlockIndex(ptr)].free
    ensures DeallocSpec(s, ptr) == Panic
  {
    CoalesceFreedStaysFree(s, ptr, GetBlockIndex(ptr), s.blocks[GetBlockIndex(ptr)].order);
  }

  /**
   * Where the merge loop for the block at `ptr` stops when it starts at
   * `order` on table `s`: the first order from `order` on whose buddy lies
   * outside the heap or is not free in `s`.
   */
  function FinalOrder(s: BuddyState, ptr: int, order: int): (o: int)
    requires s.Valid() && HEAP_START <= ptr < HEAP_END && 0 <= order <= NUM_ORDERS
    ensures order <= o <= NUM_ORDERS
    ensures GetBuddyIndex(o, ptr).None? || !s.blocks[GetBuddyIndex(o, ptr).value].free
    ensures forall k: nat :: order <= k < o ==>
      GetBuddyIndex(k, ptr).Some? && s.blocks[GetBuddyIndex(k, ptr).value].free
    decreases NUM_ORDERS - order
  {
    match GetBuddyIndex(order, ptr)
    case None => order
    case Some(b) => if !s.blocks[b].free then order else FinalOrder(s, ptr, order + 1)
  }

  /** `j` is the buddy of the block at `ptr` at some order in `from..to`. */
  ghost predicate Merged(j: int, ptr: int, from: int, to: int)
    requires HEAP_START <= ptr < HEAP_END && 0 <= from && to <= NUM_ORDERS
  {
    exists k: nat :: from <= k < to && GetBuddyIndex(k, ptr) == Some(j)
  }

  /** Removing the buddy at `order` does not move where the loop stops from a higher order. */
  lemma {:induction false} FinalOrderKeptByRemove(s: BuddyState, ptr: int, order: nat, from: int)
    requires s.Valid() && HEAP_START <= ptr < HEAP_END && order < from <= NUM_ORDERS
    requires GetBuddyIndex(order, ptr).Some?
    requires RemoveBlockSpec(s, order, GetBuddyIndex(order, ptr).value).Ok?
    ensures FinalOrder(RemoveBlockSpec(s, order, GetBuddyIndex(order, ptr).value).value, ptr, from) == FinalOrder(s, ptr, from)
    decreases NUM_ORDERS - from
  {
    var b := GetBuddyIndex(order, ptr).value;
    match GetBuddyIndex(from, ptr)
    case None =>
    case Some(c) =>
      BuddiesDistinct(ptr, order, from);
      RemoveKeepsOthersFree(s, order, b, c);
      if s.blocks[c].free {
        FinalOrderKeptByRemove(s, ptr, order, from + 1);
      }
  }

  /**
   * The merge loop of `dealloc`, from `order` on, for the block `index`
   * holding `ptr`. Let `o` be `FinalOrder(s, ptr, order)`. The loop
   * completes exactly when `o` is an order with a list and the block is not
   * already free. It then pushes the block, free and of order `o`, at the
   * head of list `o`. Every buddy it met below `o` ends not free, and every
   * other record keeps its order and its `free` flag (only links change).
   */
  lemma CoalescePushesFreed(s: BuddyState, ptr: int, index: int, order: int)
    requires s.Valid() && HEAP_START <= ptr < HEAP_END && index == GetBlockIndex(ptr) < NUM_BLOCKS
    requires 0 <= order <= NUM_ORDERS
    ensures var o, r := FinalOrder(s, ptr, order), CoalesceSpec(s, ptr, index, order);
      && (r.Ok? <==> o < NUM_ORDERS && !s.blocks[index].free)
      && (r.Ok? ==>
            && r.value.heads[o] == index && r.value.blocks[index].free && r.value.blocks[index].order == o
            && (forall k: nat :: order <= k < o ==> !r.value.blocks[GetBuddyIndex(k, ptr).value].free)
            && (forall j :: 0 <= j < NUM_BLOCKS && j != index && !Merged(j, ptr, order, o) ==>
                  r.value.blocks[j].order == s.blocks[j].order && r.value.blocks[j].free == s.blocks[j].free))
  {
    CoalesceOutcome(s, ptr, index, order);
    if CoalesceSpec(s, ptr, index, order).Ok? {
      CoalesceMergedNotFree(s, ptr, index, order);
      CoalesceFrame(s, ptr, index, order);
    }
  }

  /** One merge with the free buddy at `order`: the loop goes on from `order + 1` on the table after `remove_block`. */
  lemma CoalesceStep(s: BuddyState, ptr: int, index: int, order: nat)
    requires s.Valid() && HEAP_START <= ptr < HEAP_END && index == GetBlockIndex(ptr) < NUM_BLOCKS
    requires order <= NUM_ORDERS
    requires GetBuddyIndex(order, ptr).Some? && s.blocks[GetBuddyIndex(order, ptr).value].free
    ensures order < NUM_ORDERS
    ensures var b := GetBuddyIndex(order, ptr).value;
      && b != index
      && RemoveBlockSpec(s, order, b).Ok?
      && var s1 := RemoveBlockSpec(s, order, b).value;
         && CoalesceSpec(s, ptr, index, order) == CoalesceSpec(s1, ptr, index, order + 1)
         && FinalOrder(s, ptr, order) == FinalOrder(s1, ptr, order + 1)
         && s1.blocks[index].free == s.blocks[index].free
         && !s1.blocks[b].free
  {
    BuddyIsOtherBlock(order, ptr);
    var b := GetBuddyIndex(order, ptr).value;
    FinalOrderKeptByRemove(s, ptr, order, order + 1);
    RemoveKeepsOthersFree(s, order, b, index);
  }

  /** Whether the loop completes, and where it pushes the block. */
  lemma {:induction false} CoalesceOutcome(s: BuddyState, ptr: int, index: int, order: int)
    requires s.Valid() && HEAP_START <= ptr < HEAP_END && index == GetBlockIndex(ptr) < NUM_BLOCKS
    requires 0 <= order <= NUM_ORDERS
    ensures var o, r := FinalOrder(s, ptr, order), CoalesceSpec(s, ptr, index, order);
      && (r.Ok? <==> o < NUM_ORDERS && !s.blocks[index].free)
      && (r.Ok? ==> r.value.heads[o] == index && r.value.blocks[index].free && r.value.blocks[index].order == o)
    decreases NUM_ORDERS - order
  {
    match GetBuddyIndex(order, ptr)
    case None =>
      CoalescePushStep(s, order, index);
    case Some(b) =>
      if !s.blocks[b].free {
        CoalescePushStep(s, order, index);
      } else {
        CoalesceStep(s, ptr, index, order);
        CoalesceOutcome(RemoveBlockSpec(s, order, b).value, ptr, index, order + 1);
      }
  }

  /** Every buddy the loop merged with ends not free. */
  lemma {:induction false} CoalesceMergedNotFree(s: BuddyState, ptr: int, index: int, order: int)
    requires s.Valid() && HEAP_START <= ptr < HEAP_END && index == GetBlockIndex(ptr) < NUM_BLOCKS
    requires 0 <= order <= NUM_ORDERS
    requires CoalesceSpec(s, ptr, index, order).Ok?
    ensures var o, s' := FinalOrder(s, ptr, order), CoalesceSpec(s, ptr, index, order).value;
      forall k: nat :: order <= k < o ==> !s'.blocks[GetBuddyIndex(k, ptr).value].free
    decreases NUM_ORDERS - order
  {
    var o, s' := FinalOrder(s, ptr, order), CoalesceSpec(s, ptr, index, order).value;
    match GetBuddyIndex(order, ptr)
    case None =>
      assert o == order;
    case Some(b) =>
      if !s.blocks[b].free {
        assert o == order;
      } else {
        CoalesceStep(s, ptr, index, order);
        var s1 := RemoveBlockSpec(s, order, b).value;
        CoalesceMergedNotFree(s1, ptr, index, order + 1);
        CoalesceFrame(s1, ptr, index, order + 1);
        assert !Merged(b, ptr, order + 1, o) by {
          forall k: nat | order + 1 <= k < o
            ensures GetBuddyIndex(k, ptr) != Some(b)
          {
            BuddiesDistinct(ptr, order, k);
          }
        }
        assert !s'.blocks[b].free;
        forall k: nat | order <= k < o
          ensures !s'.blocks[GetBuddyIndex(k, ptr).value].free
        {
          if k > order {
            assert order + 1 <= k < FinalOrder(s1, ptr, order + 1);
          }
        }
      }
  }

  /** Every record other than the block and the merged buddies keeps its order and its `free` flag. */
  lemma {:induction false} CoalesceFrame(s: BuddyState, ptr: int, index: int, order: int)
    requires s.Valid() && HEAP_START <= ptr < HEAP_END && index == GetBlockIndex(ptr) < NUM_BLOCKS
    requires 0 <= order <= NUM_ORDERS
    requires CoalesceSpec(s, ptr, index, order).Ok?
    ensures var o, s' := FinalOrder(s, ptr, order), CoalesceSpec(s, ptr, index, order).value;
      forall j :: 0 <= j < NUM_BLOCKS && j != index && !Merged(j, ptr, order, o) ==>
        s'.blocks[j].order == s.blocks[j].order && s'.blocks[j].free == s.blocks[j].free
    decreases NUM_ORDERS - order
  {
    match GetBuddyIndex(order, ptr)
    case None =>
      CoalescePushStep(s, order, index);
    case Some(b) =>
      if !s.blocks[b].free {
        CoalescePushStep(s, order, index);
      } else {
        CoalesceStep(s, ptr, index, order);
        var s1 := RemoveBlockSpec(s, order, b).value;
        CoalesceFrame(s1, ptr, index, order + 1);
        var o, s' := FinalOrder(s, ptr, order), CoalesceSpec(s, ptr, index, order).value;
        forall j | 0 <= j < NUM_BLOCKS && j != index && !Merged(j, ptr, order, o)
          ensures s'.blocks[j].order == s.blocks[j].order && s'.blocks[j].free == s.blocks[j].free
        {
          assert j != b;
          RemoveKeepsOthersFree(s, order, b, j);
          assert !Merged(j, ptr, order + 1, o);
        }
      }
  }

  /** The loop stops at `order`: the push alone decides the outcome. */
  lemma CoalescePushStep(s: BuddyState, order: int, index: int)
    requires s.Valid() && 0 <= order <= NUM_ORDERS && 0 <= index < NUM_BLOCKS
    ensures var r := PushBlockSpec(s, order, index);
      && (r.Ok? <==> order < NUM_ORDERS && !s.blocks[index].free)
      && (r.Ok? ==>
            && r.value.heads[order] == index && r.value.blocks[index].free && r.value.blocks[index].order == order
            && (forall j :: 0 <= j < NUM_BLOCKS && j != index ==>
                  r.value.blocks[j].order == s.blocks[j].order && r.value.blocks[j].free == s.blocks[j].free))
  {
    if PushBlockSpec(s, order, index).Ok? {
      PushBlockEffect(s, order, index);
    }
  }

  /**
   * `dealloc` on the buddy path. Let `o` be where the merge loop stops,
   * starting from the block's recorded order. The free completes exactly
   * when `o` has a list and the block is not already free; it then leaves
   * the block free, of order `o`, at the head of list `o`, every merged
   * buddy not free, and every other record's order and flag as they were.
   */
  lemma DeallocPushesFreed(s: BuddyState, ptr: int)
    requires s.Valid() && HEAP_START <= ptr < HEAP_END
    ensures GetBlockIndex(ptr) < NUM_BLOCKS
    ensures var index := GetBlockIndex(ptr);
      var start, r := s.blocks[index].order, DeallocSpec(s, ptr);
      var o := FinalOrder(s, ptr, start);
      && (r.Ok? <==> o < NUM_ORDERS && !s.blocks[index].free)
      && (r.Ok? ==>
            && r.value.heads[o] == index && r.value.blocks[index].free && r.value.blocks[index].order == o
            && (forall k: nat :: start <= k < o ==> !r.value.blocks[GetBuddyIndex(k, ptr).value].free)
            && (forall j :: 0 <= j < NUM_BLOCKS && j != index && !Merged(j, ptr, start, o) ==>
                  r.value.blocks[j].order == s.blocks[j].order && r.value.blocks[j].free == s.blocks[j].free))
  {
    var index := GetBlockIndex(ptr);
    assert IndexToPtr(index) <= ptr < IndexToPtr(index) + PAGESIZE;
    CoalescePushesFreed(s, ptr, index, s.blocks[index].order);
  }

  /** Merging up to order `NUM_ORDERS` always panics: there is no list for it. */
  lemma CoalesceAtTopPanics(s: BuddyState, ptr: int, index: int)
    requires s.Valid() && 0 <= index < NUM_BLOCKS && HEAP_START <= ptr < HEAP_END
    ensures CoalesceSpec(s, ptr, index, NUM_ORDERS) == Panic
  {
  }
}
