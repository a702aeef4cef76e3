/**
 * `BuddyAllocator` as the source keeps it: a table of 1024 block records and
 * one list head per order, both updated in place. Every method follows the
 * source statement by statement and is proved to leave exactly the state
 * the matching function of `BuddySpec` describes; `ok == false` stands for
 * a panic, after which nothing is promised about the arrays.
 */
module BuddyAllocation {
  import opened Common
  import opened Bits
  import opened Buddy
  import opened BuddySpec

  class BuddyAllocator {
    var blocks: array<Block>
    var heads: array<int>

    /** The two arrays as a `BuddyState` value. */
    ghost function State(): BuddyState
      reads this, blocks, heads
    {
      BuddyState(blocks[..], heads[..])
    }

    ghost predicate Valid()
      reads this, blocks, heads
    {
      State().Valid()
    }

    /**
     * `BuddyAllocator::new`: the prepared table (block 0 free at order 9)
     * is dropped and a fresh default table is stored.
     */
    constructor ()
      ensures Valid() && State() == NewState()
      ensures fresh(blocks) && fresh(heads)
    {
      var block := Block(NO_BLOCK, NO_BLOCK, 1, false);
      var prepared := new Block[NUM_BLOCKS](_ => block);
      prepared[0] := prepared[0].(free := true);
      prepared[0] := prepared[0].(order := NUM_ORDERS - 1);
      var h := new int[NUM_ORDERS](_ => NO_BLOCK);
      h[NUM_ORDERS - 1] := 0;
      var b := new Block[NUM_BLOCKS](_ => block);
      assert b[..] == NewState().blocks;
      assert h[..] == NewState().heads;
      blocks := b;
      heads := h;
    }

    /** `pop_head(order)`. */
    method PopHead(order: int) returns (ok: bool, index: Option<int>)
      requires Valid() && 0 <= order
      modifies blocks, heads
      ensures ok == PopHeadSpec(old(State()), order).Ok?
      ensures ok ==> Valid() && (State(), index) == PopHeadSpec(old(State()), order).value
    {
      if order >= NUM_ORDERS {
        return false, None;
      }
      var headIndex := heads[order];
      if headIndex == NO_BLOCK {
        return true, None;
      }
      blocks[headIndex] := blocks[headIndex].(free := false);
      var head := blocks[headIndex];
      if headIndex >= NUM_ORDERS {
        return false, None;
      }
      heads[headIndex] := head.next;
      return true, Some(headIndex);
    }

    /** `push_block(order, index)`. */
    method PushBlock(order: int, index: int) returns (ok: bool)
      requires Valid() && 0 <= order && 0 <= index
      modifies blocks, heads
      ensures ok == PushBlockSpec(old(State()), order, index).Ok?
      ensures ok ==> Valid() && State() == PushBlockSpec(old(State()), order, index).value
    {
      if index >= NUM_BLOCKS || blocks[index].free || order >= NUM_ORDERS {
        return false;
      }
      var headIndex := heads[order];
      if headIndex != NO_BLOCK {
        blocks[headIndex] := blocks[headIndex].(previous := index);
      }
      heads[order] := index;
      blocks[index] := blocks[index].(next := headIndex);
      blocks[index] := blocks[index].(order := order);
      blocks[index] := blocks[index].(free := true);
      return true;
    }

    /** `remove_block(order, index)`. */
    method RemoveBlock(order: int, index: int) returns (ok: bool)
      requires Valid() && 0 <= order && 0 <= index
      modifies blocks, heads
      ensures ok == RemoveBlockSpec(old(State()), order, index).Ok?
      ensures ok ==> Valid() && State() == RemoveBlockSpec(old(State()), order, index).value
    {
      if index >= NUM_BLOCKS || !blocks[index].free {
        return false;
      }
      blocks[index] := blocks[index].(free := false);
      var prevIndex := blocks[index].previous;
      var nextIndex := blocks[index].next;
      if prevIndex != NO_BLOCK {
        blocks[index] := blocks[index].(previous := NO_BLOCK);
        blocks[prevIndex] := blocks[prevIndex].(next := nextIndex);
      } else {
        if order >= NUM_ORDERS {
          return false;
        }
        if heads[order] == index {
          heads[order] := nextIndex;
        }
      }
      if nextIndex != NO_BLOCK {
        blocks[index] := blocks[index].(next := NO_BLOCK);
        blocks[nextIndex] := blocks[nextIndex].(previous := prevIndex);
      }
      return true;
    }

    /**
     * The buddy path of `GlobalAlloc::alloc`: pop the target order, else scan
     * the larger orders, split the block found down to the target and
     * return its address; 0 (null) when every list is empty.
     */
    method Alloc(size: int, align: int) returns (ok: bool, ptr: int)
      requires Valid()
      requires 0 <= size <= 0x8000_0000_0000_0000 && 0 <= align <= 0x8000_0000_0000_0000
      requires Max(size, align) > 2048
      modifies blocks, heads
      ensures ok == AllocSpec(old(State()), size, align).Ok?
      ensures ok ==> Valid() && (State(), ptr) == AllocSpec(old(State()), size, align).value
    {
      var orderStart := AllocOrder(size, align);
      var found;
      ok, found := PopHead(orderStart);
      if !ok {
        return false, 0;
      }
      if found.Some? {
        return true, IndexToPtr(found.value);
      }
      ok, ptr := Scan(orderStart);
    }

    /** The `for` loop of `alloc` over the orders above `orderStart`. */
    method Scan(orderStart: int) returns (ok: bool, ptr: int)
      requires Valid() && 0 <= orderStart
      modifies blocks, heads
      ensures ok == ScanSpec(old(State()), orderStart, orderStart + 1).Ok?
      ensures ok ==> Valid() && (State(), ptr) == ScanSpec(old(State()), orderStart, orderStart + 1).value
    {
      var order := orderStart + 1;
      while order < NUM_ORDERS
        invariant orderStart < order && Valid()
        invariant ScanSpec(State(), orderStart, order) == ScanSpec(old(State()), orderStart, orderStart + 1)
        decreases NUM_ORDERS - order
      {
        var found;
        ok, found := PopHead(order);
        if !ok {
          return false, 0;
        }
        if found.Some? {
          var index := found.value;
          ok := SplitDown(index, orderStart, order);
          if !ok {
            return false, 0;
          }
          blocks[index] := blocks[index].(order := orderStart);
          return true, IndexToPtr(index);
        }
        order := order + 1;
      }
      return true, 0;
    }

    /**
     * The `downto` loop of `alloc`: for each order `d` from `order` down to
     * `orderStart + 1`, push the right half of block `index` onto list `d - 1`.
     */
    method SplitDown(index: int, orderStart: int, order: int) returns (ok: bool)
      requires Valid() && 0 <= index < NUM_BLOCKS && 0 <= orderStart < order < NUM_ORDERS
      modifies blocks, heads
      ensures ok == SplitSpec(old(State()), index, orderStart, order).Ok?
      ensures ok ==> Valid() && State() == SplitSpec(old(State()), index, orderStart, order).value
    {
      var down := order;
      while down > orderStart
        invariant orderStart <= down <= order && Valid()
        invariant SplitSpec(State(), index, orderStart, down) == SplitSpec(old(State()), index, orderStart, order)
        decreases down
      {
        HalfBlockFits(index, down);
        var (_, rightBlock) := Split(down, index);
        ok := PushBlock(down - 1, rightBlock);
        if !ok {
          return false;
        }
        down := down - 1;
      }
      return true;
    }

    /**
     * The buddy path of `GlobalAlloc::dealloc`: starting at the block's
     * recorded order, remove each free buddy of `ptr` and go one order up;
     * then push the block at the order reached.
     */
    method Dealloc(ptr: int) returns (ok: bool)
      requires Valid() && 0 <= ptr < U64_LIMIT
      modifies blocks, heads
      ensures ok == DeallocSpec(old(State()), ptr).Ok?
      ensures ok ==> Valid() && State() == DeallocSpec(old(State()), ptr).value
    {
      if ptr < HEAP_START {
        return false;
      }
      var blockIndex := GetBlockIndex(ptr);
      if blockIndex >= NUM_BLOCKS {
        return false;
      }
      var order := blocks[blockIndex].order;
      ghost var start := State();
      while GetBuddyIndex(order, ptr).Some?
        invariant 0 <= order <= NUM_ORDERS && Valid()
        invariant CoalesceSpec(State(), ptr, blockIndex, order) == CoalesceSpec(start, ptr, blockIndex, start.blocks[blockIndex].order)
        decreases NUM_ORDERS - order
      {
        var buddyIndex := GetBuddyIndex(order, ptr).value;
        if !blocks[buddyIndex].free {
          break;
        }
        ok := RemoveBlock(order, buddyIndex);
        if !ok {
          return false;
        }
        order := order + 1;
      }
      ok := PushBlock(order, blockIndex);
    }
  }
}
