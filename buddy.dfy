/**
 * The page-granularity buddy allocator of the kernel heap: a 4 MiB heap of
 * 1024 blocks of 4 KiB, one free list per order, split on allocation and
 * buddy coalescing on free.
 *
 * Everything is first defined on values (`BuddyState`, the `...Spec`
 * functions); the class `BuddyAllocator` further down updates its arrays in
 * place and is proved to follow those functions.
 */
module Buddy {
  import opened Common
  import opened Bits

  const HEAP_START: int := 0x4444_4444_0000
  const HEAP_SIZE: int := 4096 * 1024
  const HEAP_END: int := HEAP_START + HEAP_SIZE
  const PAGESIZE: int := 4096
  /** log2(PAGESIZE) */
  const START_ORDER: nat := 12
  /** log2(HEAP_SIZE) - START_ORDER: orders 0..9, the largest being half the heap. */
  const NUM_ORDERS: nat := 10
  const NUM_BLOCKS: nat := 1024
  /** The "no link" sentinel of the block lists. */
  const NO_BLOCK: int := 0xFFFF

  /** One block record; the `u16` fields are kept within their ranges by `WellFormed`. */
  datatype Block = Block(previous: int, next: int, order: int, free: bool)

  predicate IsLink(x: int) {
    x == NO_BLOCK || 0 <= x < NUM_BLOCKS
  }

  predicate WellFormed(b: Block) {
    IsLink(b.previous) && IsLink(b.next) && 0 <= b.order < NUM_ORDERS
  }

  /** The allocator's two arrays, as values. */
  datatype BuddyState = BuddyState(blocks: seq<Block>, heads: seq<int>)
  {
    ghost predicate Valid() {
      && |blocks| == NUM_BLOCKS
      && |heads| == NUM_ORDERS
      && (forall k :: 0 <= k < NUM_ORDERS ==> IsLink(heads[k]))
      && (forall i :: 0 <= i < NUM_BLOCKS ==> WellFormed(blocks[i]))
    }
  }

  lemma Pow2Constants()
    ensures Pow2(START_ORDER) == PAGESIZE
    ensures Pow2(NUM_ORDERS + START_ORDER) == HEAP_SIZE
    ensures Pow2(NUM_ORDERS) == NUM_BLOCKS
  {
    Pow2Add(NUM_ORDERS, START_ORDER);
  }

  /*
   * Pure helpers
   */

  /** `Block::split`: the two halves of the order-`order` block at `index`. */
  function Split(order: int, index: int): (halves: (int, int))
    requires 1 <= order <= 16 && 0 <= index
    requires index + Pow2(order - 1) < 0x1_0000
    ensures halves.0 == index
    ensures halves.1 - halves.0 == Pow2(order - 1)
    ensures halves.1 + Pow2(order - 1) == index + Pow2(order)
  {
    var newOrder := order - 1;
    (index, index + Pow2(newOrder))
  }

  /** `Block::index_to_ptr`: the address of block `index`. */
  function IndexToPtr(index: int): int
    requires 0 <= index < 0x1_0000
  {
    HEAP_START + index * PAGESIZE
  }

  /** `BuddyAllocator::get_block_index`: the block containing address `p`. */
  function GetBlockIndex(p: int): (index: int)
    requires HEAP_START <= p < U64_LIMIT
    ensures index >= 0
    ensures index < 0x1_0000 ==> IndexToPtr(index) <= p < IndexToPtr(index) + PAGESIZE
  {
    (p - HEAP_START) / PAGESIZE
  }

  lemma BlockIndexRoundTrip(index: int)
    requires 0 <= index < NUM_BLOCKS
    ensures HEAP_START <= IndexToPtr(index) < HEAP_END
    ensures GetBlockIndex(IndexToPtr(index)) == index
  {
    DivModUnique(index * PAGESIZE, PAGESIZE, index, 0);
  }

  /**
   * `Block::get_buddy_index`: the buddy of the order-`order` block at
   * `address`, chosen by the alignment of `address` within the heap, if that
   * buddy lies inside the heap.
   */
  function GetBuddyIndex(order: nat, address: int): (buddy: Option<int>)
    requires order + 1 + START_ORDER < 64
    requires HEAP_START <= address < HEAP_END
    ensures buddy.Some? ==> 0 <= buddy.value < NUM_BLOCKS && order < NUM_ORDERS
  {
    var shifted := address - HEAP_START;
    var half := Pow2(order + START_ORDER);
    var isLower := shifted % Pow2(order + 1 + START_ORDER) == 0;
    // checked_add cannot overflow here (shifted < 2^22, half < 2^63); checked_sub can.
    var buddyAddress := if isLower then shifted + half else shifted - half;
    HalfAtLeastHeap(order);
    if buddyAddress < 0 then None
    else if buddyAddress + HEAP_START < HEAP_END then Some(buddyAddress / PAGESIZE)
    else None
  }

  /** From order NUM_ORDERS on, half a buddy pair is at least the whole heap. */
  lemma HalfAtLeastHeap(order: nat)
    ensures order >= NUM_ORDERS ==> Pow2(order + START_ORDER) >= HEAP_SIZE
  {
    if order >= NUM_ORDERS {
      Pow2Monotone(NUM_ORDERS + START_ORDER, order + START_ORDER);
      Pow2Constants();
    }
  }
  /** The buddy of the aligned order-`order` block at `index`. */
  function BuddyOf(order: nat, index: int): int
  {
    if (index / Pow2(order)) % 2 == 0 then index + Pow2(order) else index - Pow2(order)
  }

  /** `(m * h) mod 2h` is `h` for odd `m` and `0` for even `m`. */
  lemma MulModDouble(m: nat, h: nat)
    requires h > 0
    ensures (m * h) % (2 * h) == if m % 2 == 0 then 0 else h
  {
    var q := m / 2;
    assert q * (2 * h) == (2 * q) * h by {
      Associate(q, 2, h);
    }
    if m % 2 == 0 {
      assert m * h == q * (2 * h) by {
        assert m == 2 * q;
      }
      DivModUnique(m * h, 2 * h, q, 0);
    } else {
      assert m * h == q * (2 * h) + h by {
        assert m == 2 * q + 1;
        Distribute(2 * q, 1, h);
      }
      DivModUnique(m * h, 2 * h, q, h);
    }
  }

  /** `(n * d) / d == n` and the remainder is zero. */
  lemma MulDiv(n: int, d: int)
    requires d > 0
    ensures (n * d) / d == n && (n * d) % d == 0
  {
    DivModUnique(n * d, d, n, 0);
  }

  /** The sizes of an order-`order` block: `2^order` pages, `2^(order + 12)` bytes, `2^(10 - order)` per heap. */
  lemma OrderSizes(order: nat)
    requires order < NUM_ORDERS
    ensures Pow2(order + START_ORDER) == Pow2(order) * PAGESIZE
    ensures Pow2(NUM_ORDERS - order) * Pow2(order) == NUM_BLOCKS
    ensures Pow2(NUM_ORDERS - order) * Pow2(order + START_ORDER) == HEAP_SIZE
    ensures Pow2(NUM_ORDERS - order) % 2 == 0
  {
    Pow2Constants();
    var rest := NUM_ORDERS - order;
    assert Pow2(order + START_ORDER) == Pow2(order) * PAGESIZE by {
      Pow2Add(order, START_ORDER);
    }
    assert Pow2(rest) * Pow2(order) == NUM_BLOCKS by {
      Pow2Add(rest, order);
    }
    assert Pow2(rest) * Pow2(order + START_ORDER) == HEAP_SIZE by {
      Pow2Add(rest, order + START_ORDER);
    }
    assert Pow2(rest) == 2 * Pow2(rest - 1);
  }

  /** An aligned block index is its rank `m` times the block size in pages, with `m` below the number of such blocks. */
  lemma AlignedRank(index: int, pk: nat, half: nat, count: nat) returns (m: nat)
    requires 0 <= index < NUM_BLOCKS && pk >= 1 && index % pk == 0
    requires half == pk * PAGESIZE && count * pk == NUM_BLOCKS
    ensures index == m * pk && m == index / pk
    ensures IndexToPtr(index) - HEAP_START == m * half
    ensures m < count
  {
    m := index / pk;
    assert index == m * pk;
    assert index * PAGESIZE == m * half by {
      Associate(m, pk, PAGESIZE);
    }
    if m >= count {
      MulMonotone(count, m, pk);
      assert false;
    }
  }

  /** The arithmetic behind `BuddyOfAligned`, on plain numbers. */
  lemma BuddyArithmetic(m: nat, pk: nat, half: nat, count: nat)
    requires pk >= 1 && half == pk * PAGESIZE
    requires count % 2 == 0 && m < count && count * half == HEAP_SIZE
    ensures ((m * half) % (2 * half) == 0) == (m % 2 == 0)
    ensures var n := if m % 2 == 0 then m + 1 else m - 1;
      && n * half == (if m % 2 == 0 then m * half + half else m * half - half)
      && 0 <= n * half < HEAP_SIZE
      && (n * half) / PAGESIZE == n * pk
      && (n * pk) / pk == n && (n * pk) % pk == 0
  {
    MulModDouble(m, half);
    assert m % 2 == 0 || m % 2 == 1;
    var n := if m % 2 == 0 then m + 1 else m - 1;
    Distribute(m, 1, half);
    assert n + 1 <= count;
    MulMonotone(n + 1, count, half);
    Distribute(n, 1, half);
    Associate(n, pk, PAGESIZE);
    MulDiv(n * pk, PAGESIZE);
    MulDiv(n, pk);
  }

  /** Stepping back from the neighbouring rank `n` of `m` lands on `m`. */
  lemma NeighbourRank(m: nat, n: int, pk: int)
    requires n == if m % 2 == 0 then m + 1 else m - 1
    ensures (if n % 2 == 0 then n * pk + pk else n * pk - pk) == m * pk
    ensures (if m % 2 == 0 then m * pk + pk else m * pk - pk) == n * pk
  {
    Distribute(n, 1, pk);
    Distribute(m, 1, pk);
  }

  /** The rank arithmetic of an aligned block and its buddy, gathered once. */
  lemma AlignedBuddyFacts(order: nat, index: int, pk: nat, half: nat) returns (m: nat, n: nat)
    requires order < NUM_ORDERS && 0 <= index < NUM_BLOCKS && index % Pow2(order) == 0
    requires pk == Pow2(order) && half == Pow2(order + START_ORDER)
    ensures m == index / pk && n == (if m % 2 == 0 then m + 1 else m - 1)
    ensures index == m * pk && (n * pk) / pk == n && (n * pk) % pk == 0
    ensures (if n % 2 == 0 then n * pk + pk else n * pk - pk) == m * pk
    ensures (if m % 2 == 0 then m * pk + pk else m * pk - pk) == n * pk
    ensures 0 <= n * pk < NUM_BLOCKS
    ensures var shifted := IndexToPtr(index) - HEAP_START;
      && 0 <= n * half < HEAP_SIZE && (n * half) / PAGESIZE == n * pk
      && n * half == (if shifted % (2 * half) == 0 then shifted + half else shifted - half)
  {
    var count := Pow2(NUM_ORDERS - order);
    OrderSizes(order);
    m := AlignedRank(index, pk, half, count);
    n := if m % 2 == 0 then m + 1 else m - 1;
    BuddyArithmetic(m, pk, half, count);
    NeighbourRank(m, n, pk);
    assert n * pk * PAGESIZE < HEAP_SIZE;
  }

  /** For a block aligned to its order, `get_buddy_index` finds the block that completes their common parent. */
  lemma BuddyOfAligned(order: nat, index: int)
    requires order < NUM_ORDERS && 0 <= index < NUM_BLOCKS && index % Pow2(order) == 0
    ensures GetBuddyIndex(order, IndexToPtr(index)) == Some(BuddyOf(order, index))
  {
    var pk, half := Pow2(order), Pow2(order + START_ORDER);
    var m, n := AlignedBuddyFacts(order, index, pk, half);
    assert BuddyOf(order, index) == n * pk;
    BuddyIndexAt(order, IndexToPtr(index), half, n * half);
  }

  /** The buddy of an aligned block is aligned to the same order and lies inside the heap. */
  lemma BuddyOfInHeap(order: nat, index: int)
    requires order < NUM_ORDERS && 0 <= index < NUM_BLOCKS && index % Pow2(order) == 0
    ensures BuddyOf(order, index) % Pow2(order) == 0
    ensures 0 <= BuddyOf(order, index) < NUM_BLOCKS
  {
    var pk, half := Pow2(order), Pow2(order + START_ORDER);
    var m, n := AlignedBuddyFacts(order, index, pk, half);
    assert BuddyOf(order, index) == n * pk;
  }

  /** Taking the buddy twice gives the block back. */
  lemma BuddyOfInvolutive(order: nat, index: int)
    requires order < NUM_ORDERS && 0 <= index < NUM_BLOCKS && index % Pow2(order) == 0
    ensures BuddyOf(order, BuddyOf(order, index)) == index
  {
    var pk, half := Pow2(order), Pow2(order + START_ORDER);
    var m, n := AlignedBuddyFacts(order, index, pk, half);
    assert BuddyOf(order, index) == n * pk;
    assert BuddyOf(order, n * pk) == m * pk;
  }

  /** `get_buddy_index` when the buddy address is known to lie inside the heap. */
  lemma BuddyIndexAt(order: nat, address: int, half: int, buddyAddress: int)
    requires order < NUM_ORDERS && HEAP_START <= address < HEAP_END
    requires half == Pow2(order + START_ORDER)
    requires var shifted := address - HEAP_START;
      buddyAddress == if shifted % (2 * half) == 0 then shifted + half else shifted - half
    requires 0 <= buddyAddress < HEAP_SIZE
    ensures GetBuddyIndex(order, address) == Some(buddyAddress / PAGESIZE)
  {
    assert Pow2(order + 1 + START_ORDER) == 2 * half;
  }

  /** Buddies are mutual: the buddy of an aligned block's buddy is the block itself. */
  lemma BuddySymmetric(order: nat, index: int)
    requires order < NUM_ORDERS && 0 <= index < NUM_BLOCKS && index % Pow2(order) == 0
    ensures GetBuddyIndex(order, IndexToPtr(index)).Some?
    ensures var b := GetBuddyIndex(order, IndexToPtr(index)).value;
      && b != index
      && GetBuddyIndex(order, IndexToPtr(b)) == Some(index)
  {
    BuddyOfAligned(order, index);
    BuddyOfInHeap(order, index);
    BuddyOfInvolutive(order, index);
    BuddyOfAligned(order, BuddyOf(order, index));
  }
  /*
   * Request size to order
   */

  /** One smearing statement of `round_up_pow2`, `num |= num >> shift`, on the bits of a `u64`. */
  function SmearStep(word: seq<bool>, shift: nat): (r: seq<bool>)
    requires |word| == 64 && shift < 64
    ensures |r| == 64
  {
    Or(word, ShiftRight(word, shift))
  }

  /** Bit `i` of `word` is set iff a bit of `orig` in `[i, i + span)` is. */
  ghost predicate SmearedOver(orig: seq<bool>, word: seq<bool>, span: nat)
    requires |orig| == 64 && |word| == 64
  {
    forall i :: 0 <= i < 64 ==> (word[i] <==> exists j :: i <= j < i + span && j < 64 && orig[j])
  }

  /** Before any statement, each bit covers just itself. */
  lemma InitialSpan(orig: seq<bool>)
    requires |orig| == 64
    ensures SmearedOver(orig, orig, 1)
  {
    forall i | 0 <= i < 64
      ensures orig[i] <==> exists j :: i <= j < i + 1 && j < 64 && orig[j]
    {
      if orig[i] {
        assert i <= i < i + 1 && i < 64 && orig[i];
      }
    }
  }

  /** Each smearing statement doubles the span of bits folded into every bit. */
  lemma SmearStepSpan(orig: seq<bool>, word: seq<bool>, span: nat)
    requires |orig| == 64 && |word| == 64 && 0 < span < 64
    requires SmearedOver(orig, word, span)
    ensures SmearedOver(orig, SmearStep(word, span), 2 * span)
  {
    var next := SmearStep(word, span);
    forall i | 0 <= i < 64
      ensures next[i] <==> exists j :: i <= j < i + 2 * span && j < 64 && orig[j]
    {
      if exists j :: i <= j < i + 2 * span && j < 64 && orig[j] {
        var j :| i <= j < i + 2 * span && j < 64 && orig[j];
        if j >= i + span {
          assert word[i + span];
        } else {
          assert word[i];
        }
      }
      if next[i] {
        if word[i] {
          var j :| i <= j < i + span && j < 64 && orig[j];
        } else {
          assert i + span < 64 && word[i + span];
          var j :| i + span <= j < i + span + span && j < 64 && orig[j];
        }
      }
    }
  }

  /**
   * Once every bit has seen all bits above it, the word is the mask of the
   * bit length of the original value.
   */
  lemma FullSpanIsMask(n: nat, word: seq<bool>)
    requires BitLength(n) <= 64 && |word| == 64
    requires SmearedOver(ToBits(n, 64), word, 64)
    ensures word == LowMask(BitLength(n), 64)
  {
    var orig, len := ToBits(n, 64), BitLength(n);
    forall i | 0 <= i < 64
      ensures word[i] == (i < len)
    {
      if i < len {
        BitsOfLength(n, 64, len - 1);
        assert i <= len - 1 < i + 64 && len - 1 < 64 && orig[len - 1];
      } else {
        forall j | i <= j < 64
          ensures !orig[j]
        {
          BitsOfLength(n, 64, j);
        }
      }
    }
  }

  /** A value below 2^63 has at most 63 significant bits. */
  lemma BitLengthBelow63(n: nat)
    requires n < 0x8000_0000_0000_0000
    ensures BitLength(n) <= 63
  {
    var len := BitLength(n);
    BitLengthBounds(n);
    if len > 63 {
      Pow2Monotone(63, len - 1);
      Pow2At63();
      assert false;
    }
  }

  /**
   * `round_up_pow2`: subtract one, fold every bit into all bits below it,
   * add one. The result is `2^BitLength(num - 1)`, the least power of two
   * that is at least `num` (`LeastPowerOfTwo`). For `num == 0` the first
   * subtraction underflows and for `num > 2^63` the final increment
   * overflows, so both are excluded.
   */
  method RoundUpPow2(num: int) returns (r: int)
    requires 1 <= num <= 0x8000_0000_0000_0000
    ensures BitLength(num - 1) <= 63 && r == Pow2(BitLength(num - 1))
  {
    var orig := ToBits(num - 1, 64);
    var word := orig;
    InitialSpan(orig);
    var shift := 1;
    while shift < 64
      invariant shift in {1, 2, 4, 8, 16, 32, 64}
      invariant |word| == 64 && SmearedOver(orig, word, shift)
      decreases 64 - shift
    {
      SmearStepSpan(orig, word, shift);
      word := SmearStep(word, shift);
      shift := 2 * shift;
    }
    var len := BitLength(num - 1);
    BitLengthBelow63(num - 1);
    FullSpanIsMask(num - 1, word);
    LowMaskValue(len, 64);
    r := FromBits(word) + 1;
  }

  /** `2^BitLength(num - 1)` is at least `num`, and half of it is not. */
  lemma LeastPowerOfTwo(num: int)
    requires num >= 1
    ensures var k := BitLength(num - 1);
      num <= Pow2(k) && (k == 0 || Pow2(k - 1) < num)
  {
    BitLengthBounds(num - 1);
  }

  /** `checked_ilog2` of a positive value: the position of its highest set bit. */
  function ILog2(x: int): (k: nat)
    requires x >= 1
    ensures Pow2(k) <= x < 2 * Pow2(k)
  {
    if x == 1 then 0 else 1 + ILog2(x / 2)
  }

  /** Only one exponent brackets a power of two. */
  lemma Log2Unique(x: int, j: nat, m: nat)
    requires Pow2(j) <= x < 2 * Pow2(j) && x == Pow2(m)
    ensures j == m
  {
    assert Pow2(j + 1) == 2 * Pow2(j);
    assert Pow2(m + 1) == 2 * Pow2(m);
    if j < m {
      Pow2Monotone(j + 1, m);
      assert false;
    } else if j > m {
      Pow2Monotone(m + 1, j);
      assert false;
    }
  }

  /** The larger of two values, as `core::cmp::max`. */
  function Max(a: int, b: int): int {
    if a >= b then a else b
  }

  /**
   * The order of the smallest block that holds `req` bytes: 0 up to a page,
   * then one order more for each doubling.
   */
  function RequestOrder(req: int): nat
    requires req >= 1
  {
    Max(BitLength(req - 1), START_ORDER) - START_ORDER
  }

  /** A block of order `RequestOrder(req)` holds `req` bytes, and unless it is order 0 its half does not. */
  lemma RequestOrderHolds(req: int)
    requires req >= 1
    ensures Pow2(RequestOrder(req) + START_ORDER) >= req
    ensures RequestOrder(req) == 0 || Pow2(RequestOrder(req) + START_ORDER - 1) < req
  {
    var b := BitLength(req - 1);
    LeastPowerOfTwo(req);
    if b < START_ORDER {
      Pow2Monotone(b, START_ORDER);
    }
  }

  /** No smaller order holds `req` bytes. */
  lemma RequestOrderLeast(req: int, order: nat)
    requires req >= 1 && Pow2(order + START_ORDER) >= req
    ensures RequestOrder(req) <= order
  {
    var target := RequestOrder(req);
    RequestOrderHolds(req);
    if target > order {
      Pow2Monotone(order + START_ORDER, target + START_ORDER - 1);
    }
  }

  /** `checked_ilog2` of `max(PAGESIZE, 2^b)`. */
  lemma PageLog2(b: nat, pages: int, k: nat)
    requires pages == Max(PAGESIZE, Pow2(b))
    requires Pow2(k) <= pages < 2 * Pow2(k)
    ensures k == Max(b, START_ORDER)
  {
    Pow2Constants();
    if b <= START_ORDER {
      Pow2Monotone(b, START_ORDER);
      Log2Unique(pages, k, START_ORDER);
    } else {
      Pow2Monotone(START_ORDER, b);
      Log2Unique(pages, k, b);
    }
  }

  /**
   * The order `alloc` computes for a request that Sleb does not take
   * (`max(size, align) > 2048`): round the larger of `size` and `align` up
   * to a power of two, at least a page, and take its log2 less the page
   * order. `Layout` keeps both at most 2^63. The order is not bounded here;
   * `alloc` panics on the list head lookup when it is 10 or more.
   */
  method AllocOrder(size: int, align: int) returns (order: int)
    requires 0 <= size <= 0x8000_0000_0000_0000 && 0 <= align <= 0x8000_0000_0000_0000
    requires Max(size, align) > 2048
    ensures order == RequestOrder(Max(size, align))
  {
    var rounded;
    if size > align {
      rounded := RoundUpPow2(size);
    } else {
      rounded := RoundUpPow2(align);
    }
    var allocSize := ILog2(Max(PAGESIZE, rounded));
    PageLog2(BitLength(Max(size, align) - 1), Max(PAGESIZE, rounded), allocSize);
    order := allocSize - START_ORDER;
  }
}
