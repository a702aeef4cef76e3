# panopticon kernel core, modelled in Dafny

This project models the heap allocator of the panopticon hobby kernel and
the small self-contained pieces around it, and proves properties of the model.
The allocator has two tiers:

- **Buddy allocator.** A 4 MiB heap at `0x4444_4444_0000` is split into
  1024 blocks of 4 KiB, with orders 0..9. Each block has a
  `Block {previous, next, order, free}` record, and each order has a list
  head; `0xFFFF` means "no link". `alloc` splits larger blocks down to the
  order it needs, and `dealloc` merges free buddies.
- **Sleb.** This sub-page allocator takes one 1 MiB buddy block. Its first
  page holds 255 packed records, each with a type tag, next and previous
  indices, and a 64-bit bitmap. The 32-byte class keeps a 128-bit bitmap
  inside each of its pages. The per-class "buckets" hint at a page with a
  free slot.
- **`GlobalAlloc`.** It routes every request of at most 2048 bytes to Sleb
  and every other request to the buddy allocator. A free goes back to Sleb
  when the address lies inside Sleb's megabyte.

The smaller pieces are:

- a fixed-capacity ring buffer;
- PS/2 scan-code set 1 decoding and the keyboard LED bits;
- the two VGA text consoles, one of the kernel and one of the boot stage (80×25 cells);
- the ACPI RSDP and SDT checksums;
- the PCI configuration address, the configuration-space register reads and the device-enumeration stepper;
- 4-level page-table entries;
- the IDT gate options and the page-fault error code;
- the x86-64 canonical-address check and the interrupt flag.

Rust is modelled with debug-build semantics. Arithmetic overflow, an
out-of-range shift, an out-of-bounds index, `panic!` and `debug_assert!`
all stop the call. The model writes that outcome out as `Panic`, as a
`Panics` run, or as `ok == false`. Each allocator operation has two forms:

- a specification function over a value state (`BuddySpec`, `SlebSpec`);
- a method on a class holding arrays, as the source updates them in
  place (`BuddyAllocation`, `SlebAllocation`).

Each method is proved equal to its specification. The properties are
proved as lemmas about the specification functions (`BuddyProperties`,
`SlebProperties`, `GlobalAllocSpec`). The source is modelled as written,
and its quirks are stated as lemmas:

- `BuddyAllocator::new` drops the table it prepared.
- `pop_head` updates `heads[head]` instead of `heads[order]`, so two 2 MiB
  allocations on a fresh heap both return the start of the heap.
- The tags of Medium256 and Medium512 come back crossed.
- The 1025..2048-byte class indexes a sixth medium bucket, which does not exist.
- `dealloc` computes every buddy from the freed address itself, not from
  the start of the block merged so far, and pushes the freed block's own
  index, so a merged block whose left part was a buddy is listed under the
  index of its right part.
- `free_medium` computes the slot as the offset over 32 whatever the class.
- The tiny bitmap has 128 bits but only 127 entries.
- Allocation never refills a bucket, so a bucket walk that meets a full page can loop forever.
- The RSDP and SDT checksum tests differ from the sum-to-zero rule of
  sections 5.2.5.3 and 5.2.6 of the ACPI 6.x specification.
- Slot 32 in a PCI address aliases bus `| 1`.
- Every IDT options setter can only clear bits.
- `CanonicalAddress::new` rejects the whole upper half.

Files:

- `common.dfy`, `bits.dfy` and `walk.dfy` hold arithmetic helpers, bit
  sequences and the pigeonhole argument about bucket walks.
- The buddy allocator is in `buddy.dfy`, `buddy_spec.dfy`,
  `buddy_allocator.dfy` and `buddy_props.dfy`.
- Sleb is in `sleb.dfy`, `sleb_spec.dfy`, `sleb_allocator.dfy` and `sleb_props.dfy`.
- The routing between the two is in `global_alloc.dfy`.
- The other modules are one file each.

## Model

| member | source | states |
|---|---|---|
| Buddy.Split | kernel/src/allocator/mod.rs:70-77 | the left half keeps the index, the right half starts 2^(order-1) pages later, and the two halves together span the order-`order` block |
| Buddy.GetBlockIndex | kernel/src/allocator/mod.rs:133-137 | the index returned names the page that contains the address |
| Buddy.IndexToPtr | kernel/src/allocator/mod.rs:79-82 | `Block::index_to_ptr`: block `index` starts `index` pages past `HEAP_START` |
| Buddy.BlockIndexRoundTrip | kernel/src/allocator/mod.rs:79-82 | `index_to_ptr` of a block index lies in the heap, and `get_block_index` maps it back to the same index |
| Buddy.GetBuddyIndex | kernel/src/allocator/mod.rs:84-103 | a buddy that is found is a block of the heap, and the order is one that exists |
| Buddy.HalfAtLeastHeap | kernel/src/allocator/mod.rs:84-103 | from order 10 on, half a buddy pair already covers the whole heap, so no buddy is found |
| Buddy.OrderSizes | kernel/src/allocator/mod.rs:16-27 | an order-k block is 2^k pages or 2^(k+12) bytes, and 2^(10-k) of them tile the heap |
| Buddy.BuddyOfAligned | kernel/src/allocator/mod.rs:84-103 | for a block aligned to its order, `get_buddy_index` names the other half of their common parent |
| Buddy.BuddyOfInHeap | kernel/src/allocator/mod.rs:84-103 | that buddy is aligned to the same order and lies inside the heap |
| Buddy.BuddyOfInvolutive | kernel/src/allocator/mod.rs:84-103 | taking the buddy twice gives the block back |
| Buddy.BuddyIndexAt | kernel/src/allocator/mod.rs:84-103 | when the buddy address (the offset plus or minus half, chosen by alignment to the pair) is in the heap, the result is that address over the page size |
| Buddy.BuddySymmetric | kernel/src/allocator/mod.rs:84-103 | the buddy of an aligned block is a different block, and its own buddy is the block |
| Buddy.SmearStepSpan | kernel/src/allocator/mod.rs:191-196 | each `num \|= num >> s` statement doubles the span of higher bits folded into every bit |
| Buddy.FullSpanIsMask | kernel/src/allocator/mod.rs:191-196 | after the six statements the word is the mask of the bit length of the value |
| Buddy.RoundUpPow2 | kernel/src/allocator/mod.rs:189-198 | the result is 2^BitLength(num-1), the least power of two at least `num`; 0 (underflow) and values above 2^63 (overflow) are excluded |
| Buddy.LeastPowerOfTwo | kernel/src/allocator/mod.rs:189-198 | 2^BitLength(num-1) is at least `num`, and half of it is less than `num` |
| Buddy.ILog2 | kernel/src/allocator/mod.rs:210-212 | `checked_ilog2` gives the k with 2^k <= x < 2^(k+1) |
| Buddy.Log2Unique | kernel/src/allocator/mod.rs:210-212 | only one exponent brackets a value that way |
| Buddy.RequestOrderHolds | kernel/src/allocator/mod.rs:209-219 | a block of the requested order holds the request, and unless it is order 0 its half does not |
| Buddy.RequestOrderLeast | kernel/src/allocator/mod.rs:209-219 | no smaller order holds the request |
| Buddy.RequestOrder | kernel/src/allocator/mod.rs:209-219 | the order `alloc` asks for: the bit length of `req - 1`, at least 12, less 12 |
| Buddy.PageLog2 | kernel/src/allocator/mod.rs:210-212 | `checked_ilog2(max(PAGESIZE, 2^b))` is `max(b, 12)` |
| Buddy.AllocOrder | kernel/src/allocator/mod.rs:209-219 | the order `alloc` computes from `max(size, align)` is the least order whose block holds the request |
| BuddySpec.NewState | kernel/src/allocator/mod.rs:112-131 | the table `new` returns is well formed, names block 0 as head of order 9, and has block 0 marked not free |
| BuddySpec.PushBlockSpec | kernel/src/allocator/mod.rs:154-167 | `push_block` succeeds exactly when the block is in range and not free and the order has a list; the result stays well formed |
| BuddySpec.RemoveBlockSpec | kernel/src/allocator/mod.rs:169-186 | `remove_block` succeeds exactly when the block is in range and free and, if it has no predecessor, the order has a list; the result stays well formed |
| BuddySpec.PopHeadSpec | kernel/src/allocator/mod.rs:139-152 | a successful `pop_head` leaves a well-formed table and returns a block of the heap |
| BuddySpec.HalfBlockFits | kernel/src/allocator/mod.rs:229-231 | the right half computed by the split loop fits a `u16` index |
| BuddySpec.SplitSpec | kernel/src/allocator/mod.rs:229-234 | the split loop keeps the table well formed |
| BuddySpec.ScanSpec | kernel/src/allocator/mod.rs:227-240 | the scan over the larger orders keeps the table well formed |
| BuddySpec.AllocSpec | kernel/src/allocator/mod.rs:209-240 | the buddy path of `alloc` keeps the table well formed |
| BuddySpec.CoalesceSpec | kernel/src/allocator/mod.rs:256-264 | the merge loop of `dealloc` keeps the table well formed |
| BuddySpec.DeallocSpec | kernel/src/allocator/mod.rs:251-264 | the buddy path of `dealloc` keeps the table well formed |
| BuddyProperties.PushBlockEffect | kernel/src/allocator/mod.rs:154-167 | after `push_block` the block is the free head of the list at that order, and the old head follows it and points back to it; every other record, and the block's own `previous` (unless it was the head), is untouched |
| BuddyProperties.RemoveBlockEffect | kernel/src/allocator/mod.rs:169-186 | `remove_block` field by field, aliasing included: the block ends not free with `next` cleared and `previous` cleared too, except when it was linked to itself, where it keeps its old `previous`; its predecessor (when it is another block) gets the block's `next`, and when the two were linked both ways its `previous` points to itself; its successor (when it is another block and not the predecessor) gets the block's `previous`; the head moves to the successor only when the block had no predecessor and headed the list; every other record is unchanged |
| BuddyProperties.RemoveKeepsOthersFree | kernel/src/allocator/mod.rs:169-186 | `remove_block` changes the `free` flag of no block other than the one removed, and changes no block's order |
| BuddyProperties.PopHeadEmpty | kernel/src/allocator/mod.rs:139-144 | `pop_head` returns nothing, and changes nothing, exactly when the list is empty |
| BuddyProperties.PopHeadTaken | kernel/src/allocator/mod.rs:139-152 | a successful pop returns the head, marks it not free and stores its successor in `heads[head]`; nothing else changes |
| BuddyProperties.PopHeadKeepsHead | kernel/src/allocator/mod.rs:149 | because of that write, the block handed out stays at the head of its list whenever its index differs from the order |
| BuddyProperties.ScanNullIffEmpty | kernel/src/allocator/mod.rs:227-240 | the scan returns null exactly when every list from the order up is empty, and then nothing changed; a block it returns is a heap address |
| BuddyProperties.AllocNullIffEmpty | kernel/src/allocator/mod.rs:209-240 | `alloc` returns null exactly when no list from the request's order up holds a block, and then the state is unchanged |
| BuddyProperties.SplitKeepsHeads | kernel/src/allocator/mod.rs:229-232 | the split loop leaves the heads of the orders it does not push to as they were |
| BuddyProperties.SplitPushesHalf | kernel/src/allocator/mod.rs:229-232 | after the loop, each order e from the target to `down - 1` has the right half `index + 2^e` as its free head, of order e |
| BuddyProperties.SplitTopHalf | kernel/src/allocator/mod.rs:229-232 | the half pushed first stays the head of its list |
| BuddyProperties.SplitKeepsHalf | kernel/src/allocator/mod.rs:229-232 | a free head of order `down` stays so through the rest of the loop |
| BuddyProperties.RightHalfNotBelow | kernel/src/allocator/mod.rs:229-232 | the right half at one order is none of the right halves at lower orders |
| BuddyProperties.SplitKeepsOthers | kernel/src/allocator/mod.rs:229-232 | the loop changes no record other than the pushed halves, apart from `previous` links |
| BuddyProperties.ScanHandsOut | kernel/src/allocator/mod.rs:227-237 | a block the scan returns is the head of the first non-empty list from the starting order up (every list before it was empty); it was split down to the requested order: it is recorded at the target order, not free, its address is returned, and its right halves head the lists in between, free and of their orders |
| BuddyProperties.SplitHandsOut | kernel/src/allocator/mod.rs:228-236 | the same for one pass of the scan that found a block |
| BuddyProperties.IndexNotAHalf | kernel/src/allocator/mod.rs:229-234 | the block kept for the caller is none of the pushed halves |
| BuddyProperties.RequestOrderOfPow2 | kernel/src/allocator/mod.rs:209-219 | a request of exactly 2^k bytes, k >= 12, asks for order k - 12 |
| BuddyProperties.TwoMiBIsOrder9 | kernel/src/allocator/mod.rs:209-219 | a 2 MiB request asks for order 9, the largest |
| BuddyProperties.FreshAllocatorHandsOutTwice | kernel/src/allocator/mod.rs:112-152 | two 2 MiB allocations on a fresh allocator both return `HEAP_START` |
| BuddyProperties.BuddyIsOtherBlock | kernel/src/allocator/mod.rs:84-103 | the buddy found for a block is never the block itself |
| BuddyProperties.CoalesceFreedStaysFree | kernel/src/allocator/mod.rs:256-264 | the merge loop on a block whose record is already free always panics: the loop never clears that block's flag, so the final `push_block` fails its `debug_assert!` |
| BuddyProperties.DoubleFreePanics | kernel/src/allocator/mod.rs:155 | freeing a block whose record is already free panics on the final `push_block`'s `debug_assert!` |
| BuddyProperties.CoalescePushesFreed | kernel/src/allocator/mod.rs:256-264 | with `o` the order `FinalOrder` names, the merge loop completes exactly when `o` is below 10 and the block is not already free; it then leaves the block free, of order `o`, at the head of list `o`; every buddy it merged with ends not free; every other record keeps its order and its `free` flag |
| BuddyProperties.DeallocPushesFreed | kernel/src/allocator/mod.rs:243-264 | `dealloc` of a heap address merges from the block's recorded order: it completes exactly when the final order `o` is below 10 and the block is not already free, and then the block is free, of order `o`, at the head of list `o`, every buddy merged ends not free and every other record keeps its order and `free` flag |
| BuddyProperties.SelfLinkedRemove | kernel/src/allocator/mod.rs:154-186 | pushing a block onto the list it already heads links it to itself, and a later `remove_block` of it then leaves its `previous` pointing to itself |
| BuddyProperties.FirstNonEmpty | kernel/src/allocator/mod.rs:227-237 | the first order from the start up whose list holds a block, or 10 when none does; every list before it is empty |
| BuddyProperties.AllocTakesHead | kernel/src/allocator/mod.rs:221-240 | when the list of the request's order holds a block, `alloc` pops that head and returns its address (the pop panics for a head index of 10 or more); otherwise the result is the scan's from the next order up |
| BuddyProperties.BuddiesDistinct | kernel/src/allocator/mod.rs:84-103 | the buddies of one address at two different orders are different blocks |
| BuddyProperties.FinalOrder | kernel/src/allocator/mod.rs:256-262 | the order at which the merge loop stops: every buddy below it exists and is free, and at it the buddy is missing or not free |
| BuddyProperties.FinalOrderKeptByRemove | kernel/src/allocator/mod.rs:256-262 | removing the buddy at one order does not change where the loop stops from any higher order |
| BuddyProperties.CoalesceStep | kernel/src/allocator/mod.rs:256-262 | one merge with a free buddy: the buddy is another block, its removal succeeds and leaves it not free, and the loop continues one order up on the new table with the same final order and the same flag on the freed block |
| BuddyProperties.CoalesceOutcome | kernel/src/allocator/mod.rs:256-264 | the merge loop completes exactly when the final order is below 10 and the block is not free, and then pushes it free at that order |
| BuddyProperties.CoalesceMergedNotFree | kernel/src/allocator/mod.rs:256-262 | every buddy the loop merged with ends not free |
| BuddyProperties.CoalesceFrame | kernel/src/allocator/mod.rs:256-264 | every record other than the freed block and the merged buddies keeps its order and its `free` flag |
| BuddyProperties.CoalescePushStep | kernel/src/allocator/mod.rs:264 | when the loop stops, the push succeeds exactly when there is a list at that order and the block is not free, and then touches only links of other records |
| BuddyProperties.CoalesceAtTopPanics | kernel/src/allocator/mod.rs:260-264 | merging up to order 10 always panics, since there is no list for it |
| BuddyAllocation.BuddyAllocator.constructor | kernel/src/allocator/mod.rs:112-131 | the arrays hold the table `new` returns |
| BuddyAllocation.BuddyAllocator.PopHead | kernel/src/allocator/mod.rs:139-152 | in place, `pop_head` panics exactly when the specification does, and otherwise leaves the state and result it gives |
| BuddyAllocation.BuddyAllocator.PushBlock | kernel/src/allocator/mod.rs:154-167 | the same for `push_block` |
| BuddyAllocation.BuddyAllocator.RemoveBlock | kernel/src/allocator/mod.rs:169-186 | the same for `remove_block` |
| BuddyAllocation.BuddyAllocator.Alloc | kernel/src/allocator/mod.rs:209-240 | the same for the buddy path of `alloc` |
| BuddyAllocation.BuddyAllocator.Scan | kernel/src/allocator/mod.rs:227-240 | the same for the scan loop over the larger orders |
| BuddyAllocation.BuddyAllocator.SplitDown | kernel/src/allocator/mod.rs:229-234 | the same for the split loop |
| BuddyAllocation.BuddyAllocator.Dealloc | kernel/src/allocator/mod.rs:251-264 | the same for the buddy path of `dealloc`, merge loop included |
| Sleb.Discriminant | kernel/src/allocator/sleb.rs:305-316 | `t as u8` is a 3-bit value, zero exactly for Empty |
| Sleb.TagRoundTrip | kernel/src/allocator/sleb.rs:40-52 | a tag written with `t as u8` and decoded by `get_type` gives `t` back, except that Medium256 and Medium512 come back as each other |
| Sleb.DecodeType | kernel/src/allocator/sleb.rs:40-52 | `get_type`: 0 is Empty, 1 Tiny32, 2 to 6 the medium classes from 64 to 1024 bytes, and anything else Medium2048 |
| Sleb.Pack | kernel/src/allocator/sleb.rs:318-328 | the packed record is a `u64` |
| Sleb.PackFields | kernel/src/allocator/sleb.rs:318-328 | each field of `SlebBits` reads back what was packed, so the fields do not overlap |
| Sleb.UnpackRaw | kernel/src/allocator/sleb.rs:318-328 | every `u64` is the packing of its own fields |
| Sleb.SetType | kernel/src/allocator/sleb.rs:318-328 | `set_type` stores its value mod 8 and keeps every other field |
| Sleb.SetNext | kernel/src/allocator/sleb.rs:318-328 | `set_next` stores its value mod 2^30 and keeps every other field |
| Sleb.SetPrev | kernel/src/allocator/sleb.rs:318-328 | `set_prev` stores its value mod 2^30 and keeps every other field |
| Sleb.NextIndexNeverNone | kernel/src/allocator/sleb.rs:23-28 | a next index read from a record is a `u32` that never equals the empty-bucket value |
| Sleb.BucketRoundTrip | kernel/src/allocator/sleb.rs:331-349 | `get` is None exactly on `u32::MAX - 1`; `set` panics exactly on that value, and `get` returns anything else it stored |
| Sleb.BucketGet | kernel/src/allocator/sleb.rs:343-349 | `BucketIndex::get`: None on `u32::MAX - 1`, otherwise the stored index |
| Sleb.BucketSet | kernel/src/allocator/sleb.rs:335-341 | `BucketIndex::set`: panics on `u32::MAX - 1`, otherwise stores the index |
| Sleb.TrailingOnes | kernel/src/allocator/sleb.rs:135 | `trailing_ones` is the index of the lowest clear bit, or the width when all bits are set |
| Sleb.ClassBitmapValue | kernel/src/allocator/sleb.rs:150-158 | a bitmap with bit 0 and every bit from m up set is the number 2^64 - 2^m + 1 |
| Sleb.SlotsPerPage | kernel/src/allocator/sleb.rs:139-141 | a page holds 64, 32, 16, 8, 4 or 2 slots of the medium classes 0..5 |
| Sleb.MediumInitialBitmap | kernel/src/allocator/sleb.rs:150-158 | each constant bitmap of a fresh medium page is slot 0 plus every bit from `4096 / slot size` up |
| Sleb.MediumClassFits | kernel/src/allocator/sleb.rs:170-181 | a size of 33..2048 goes to the medium class whose slot of 2^(index+6) bytes is the least power of two holding it |
| Sleb.ClassOf | kernel/src/allocator/sleb.rs:170-181 | the size match of `alloc`: up to 32 bytes is tiny, 33..2048 the medium class of the next power of two from 64, anything larger a bad size (a panic) |
| Sleb.PageIndexRoundTrip | kernel/src/allocator/sleb.rs:74-90 | an address inside data page `index` is within Sleb's bounds, and `free` maps it back to record `index` |
| Sleb.WithinBounds | kernel/src/allocator/sleb.rs:74-80 | `within_bounds`: strictly above the metadata page's address and strictly below 1 MiB past it |
| Sleb.PagePtr | kernel/src/allocator/sleb.rs:82-85 | `index_to_ptr`: data page `index` starts `index + 1` pages past the metadata page |
| Sleb.FreeIndex | kernel/src/allocator/sleb.rs:240-243 | the record index `free` computes, `(ptr - base) / 4096 - 1`, panicking when either subtraction underflows |
| Sleb.FreeIndexInBounds | kernel/src/allocator/sleb.rs:238-244 | `free` finds a record exactly for an address past the metadata page, and that record index is below 255 |
| SlebSpec.InitState | kernel/src/allocator/sleb.rs:69-72 | after `init` every record is Empty with next index 0, and every bucket is empty |
| SlebSpec.FirstEmpty | kernel/src/allocator/sleb.rs:93-101 | the record found is Empty and no earlier record is |
| SlebSpec.FindEmptyPageSpec | kernel/src/allocator/sleb.rs:93-101 | `find_empty_page` keeps the state well formed |
| SlebSpec.FindFreeSlotSpec | kernel/src/allocator/sleb.rs:280-290 | a successful `find_free_slot` keeps a 128-bit bitmap |
| SlebSpec.TinyScan | kernel/src/allocator/sleb.rs:105-115 | the tiny bucket loop changes only tiny bitmaps and the tiny bucket |
| SlebSpec.AllocTinySpec | kernel/src/allocator/sleb.rs:103-130 | `alloc_tiny` keeps the state well formed and the base fixed |
| SlebSpec.PageSlots | kernel/src/allocator/sleb.rs:139-141 | a medium page holds `4096 / slot size` slots, between 2 and 64 |
| SlebSpec.MediumScan | kernel/src/allocator/sleb.rs:134-146 | the medium bucket loop changes only records and medium buckets |
| SlebSpec.AllocMediumSpec | kernel/src/allocator/sleb.rs:132-168 | `alloc_medium` keeps the state well formed and the base fixed |
| SlebSpec.AllocSpec | kernel/src/allocator/sleb.rs:170-181 | `alloc` keeps the state well formed and the base fixed |
| SlebSpec.LinkPage | kernel/src/allocator/sleb.rs:195-207 | the `was_full` branch of both frees: with an empty bucket the page becomes its value; otherwise the old head (which must be a record index, else the indexing panics) gets the page as its previous index, the bucket gets the page, and the page gets the old head as its next index; setting the reserved value panics |
| SlebSpec.FreeTinySpec | kernel/src/allocator/sleb.rs:183-208 | `free_tiny`: the slot is the offset in the page over 32; its bit must be set (`debug_assert!`); it is cleared, and only a page whose bitmap was all ones is linked at the head of the tiny bucket |
| SlebSpec.FreeMediumSpec | kernel/src/allocator/sleb.rs:211-235 | `free_medium`: the same on the record's `extra_bits`, with the slot still the offset over 32; `1 << slot` overflows from slot 64 on, and a bucket index of 5 or more panics on the bucket array |
| SlebSpec.FreeSpec | kernel/src/allocator/sleb.rs:238-255 | `free`: derives the record index from the address (panicking on the subtractions' underflow and on an index past the records), then dispatches on the decoded tag to `free_tiny` or to `free_medium` with buckets 0 to 5, and panics on an Empty record |
| SlebProperties.TrailingOnesUnique | kernel/src/allocator/sleb.rs:283 | `trailing_ones` is fixed by its three properties |
| SlebProperties.TrailingOnesWords | kernel/src/allocator/sleb.rs:281-284 | taking the lowest clear bit of the first word that is not full gives the lowest clear bit of the whole 128-bit map |
| SlebProperties.FindFreeSlotLowest | kernel/src/allocator/sleb.rs:280-290 | `find_free_slot` sets the lowest clear bit and returns `page + 16 + 32 * slot`; it returns null, changing nothing, when all bits are set, and panics for slot 127 |
| SlebProperties.FindFreeSlotNull | kernel/src/allocator/sleb.rs:280-290 | it returns null exactly when every bit is set |
| SlebProperties.FindEmptyPageEffect | kernel/src/allocator/sleb.rs:93-101 | `find_empty_page` retags the lowest Empty record so that it decodes as the crossed type, keeps its links and changes nothing else; with no Empty record nothing changes |
| SlebProperties.TinyScanHangs | kernel/src/allocator/sleb.rs:105-115 | the tiny loop is still going after n passes exactly when the pages it met were all full records and the next is not the empty bucket |
| SlebProperties.MediumScanHangs | kernel/src/allocator/sleb.rs:134-146 | the same for the medium loop |
| SlebProperties.TinyScanNeverEnds | kernel/src/allocator/sleb.rs:105-115 | a tiny loop not ended after 256 passes never ends, whatever the number of passes |
| SlebProperties.MediumScanNeverEnds | kernel/src/allocator/sleb.rs:134-146 | the same for the medium loop |
| SlebProperties.AllocAbove1024Panics | kernel/src/allocator/sleb.rs:170-181 | sizes above 1024 panic: 1025..2048 reach the missing sixth medium bucket, larger sizes hit `panic!` |
| SlebProperties.MediumFreshPage | kernel/src/allocator/sleb.rs:148-167 | with the bucket empty, a medium allocation claims the lowest Empty record, gives it the class bitmap and returns the page's first slot; with no Empty record it returns null and changes nothing |
| SlebProperties.TinyFreshPage | kernel/src/allocator/sleb.rs:117-129 | with the bucket empty, a tiny allocation claims the lowest Empty record, clears its bitmap and returns entry 0, 16 bytes into the page; with no Empty record it returns null and changes nothing |
| SlebProperties.ClassBitmapFreeSlots | kernel/src/allocator/sleb.rs:150-158 | the bits a fresh medium page leaves clear are exactly its slots past slot 0 inside the page |
| SlebProperties.MediumBucketSlot | kernel/src/allocator/sleb.rs:134-141 | a bucket page with a clear bit gives its lowest clear bit: the bit is set and that slot's address returned, or the slot lies past the page and it panics |
| SlebProperties.MediumScanBucket | kernel/src/allocator/sleb.rs:134-146 | the medium loop writes only its own bucket |
| SlebProperties.AllocKeepsEmptyBuckets | kernel/src/allocator/sleb.rs:103-181 | allocation never puts a page into an empty bucket |
| SlebProperties.AllocMediumKeepsTiny | kernel/src/allocator/sleb.rs:132-168 | a medium allocation leaves the tiny bitmaps and bucket alone |
| SlebProperties.InitTinyQuiet | kernel/src/allocator/sleb.rs:69-72 | the no-full-tiny-page invariant holds after `init`: the tiny bucket is empty and slot 127 of no tiny bitmap is set |
| SlebProperties.AllocKeepsTinyQuiet | kernel/src/allocator/sleb.rs:103-181 | slot 127 is never handed out, so no tiny page is ever full and the tiny bucket never gains a page |
| SlebProperties.LinkedRecords | kernel/src/allocator/sleb.rs:199-207 | the two record updates of a link point the page and the old head at each other, keep every tag and bitmap, and change no other record |
| SlebProperties.LinkPageEffect | kernel/src/allocator/sleb.rs:199-207 | linking a page that was full makes it the bucket's value and links it with the old head in both directions; it panics exactly when the old head is not a record |
| SlebProperties.FreeClearsSlot | kernel/src/allocator/sleb.rs:238-254 | a completed free found a tagged record and cleared exactly the bit of slot `(ptr % 4096) / 32`, which was set; a double free panics |
| SlebProperties.FreeNotFullKeepsBuckets | kernel/src/allocator/sleb.rs:192-235 | a free that finds the page not full leaves every bucket and link alone |
| SlebProperties.FreeFullMediumPageLinks | kernel/src/allocator/sleb.rs:222-235 | a full medium page becomes the head of the bucket its decoded tag names, when that bucket was empty; no other bucket changes |
| SlebProperties.Class256PageJoinsBucket3 | kernel/src/allocator/sleb.rs:244-251 | a page claimed for the 256-byte class is freed into the 512-byte bucket (3), and the 256-byte bucket is unchanged |
| SlebProperties.Free64ByteSlotUsesBit2k | kernel/src/allocator/sleb.rs:211-220 | on a 64-byte page, freeing slot k works on bit 2k of the bitmap |
| SlebProperties.FreeUpperHalfPanics | kernel/src/allocator/sleb.rs:211-220 | on any medium page, freeing an address in the upper half of the page panics, since `1 << slot` overflows |
| SlebProperties.FreeFreshMediumSlot | kernel/src/allocator/sleb.rs:211-235 | freeing slot 0 of a page that still has its fresh class bitmap clears that bit and nothing else |
| SlebProperties.FreeAfterFreshMediumAlloc | kernel/src/allocator/sleb.rs:148-235 | freeing the address just taken from a fresh medium page clears slot 0's bit, and no bucket changes |
| SlebProperties.FreeKeepsTinyQuiet | kernel/src/allocator/sleb.rs:183-209 | a free never makes a tiny page full, so a tiny free never links it |
| SlebProperties.AllocInDataPages | kernel/src/allocator/sleb.rs:170-181 | every non-null address `alloc` returns lies in a data page, so `within_bounds` holds and `free` maps it back to that page's record |
| Walks.WalkCycles | kernel/src/allocator/sleb.rs:105-115 | a walk whose first 256 records are all full records meets only full records, however long it runs |
| Walks.Pigeonhole | kernel/src/allocator/sleb.rs:55 | 256 record indices below 255 cannot all differ |
| SlebAllocation.SlebMetadataPage.constructor | kernel/src/allocator/sleb.rs:69-72 | the arrays hold the state `init` leaves |
| SlebAllocation.SlebMetadataPage.FindEmptyPage | kernel/src/allocator/sleb.rs:93-101 | the loop over the records gives the state and result of `FindEmptyPageSpec` |
| SlebAllocation.SlebMetadataPage.FindFreeSlot | kernel/src/allocator/sleb.rs:280-290 | the loop over the two words gives the bitmap and address of `FindFreeSlotSpec` and panics exactly when it does |
| SlebAllocation.SlebMetadataPage.TinyWalk | kernel/src/allocator/sleb.rs:105-115 | the `while let` loop ends as `TinyScan` does |
| SlebAllocation.SlebMetadataPage.AllocTiny | kernel/src/allocator/sleb.rs:103-130 | `alloc_tiny` ends as `AllocTinySpec` does |
| SlebAllocation.SlebMetadataPage.MediumWalk | kernel/src/allocator/sleb.rs:134-146 | the `while let` loop ends as `MediumScan` does |
| SlebAllocation.SlebMetadataPage.AllocMedium | kernel/src/allocator/sleb.rs:132-168 | `alloc_medium` ends as `AllocMediumSpec` does |
| SlebAllocation.SlebMetadataPage.Alloc | kernel/src/allocator/sleb.rs:170-181 | `alloc` ends as `AllocSpec` does |
| SlebAllocation.SlebMetadataPage.FreeTiny | kernel/src/allocator/sleb.rs:183-209 | `free_tiny` panics exactly when the specification does and otherwise leaves its state |
| SlebAllocation.SlebMetadataPage.FreeMedium | kernel/src/allocator/sleb.rs:211-236 | the same for `free_medium` |
| SlebAllocation.SlebMetadataPage.Free | kernel/src/allocator/sleb.rs:238-254 | the same for `free` with its dispatch on the decoded tag |
| GlobalAllocSpec.InitialHeap | kernel/src/allocator/mod.rs:32-43 | the kernel starts with `BuddyAllocator::new()` and Sleb not yet started |
| GlobalAllocSpec.StartSleb | kernel/src/allocator/mod.rs:34-43 | the lazy start of Sleb, when it succeeds, leaves a well-formed heap with Sleb running |
| GlobalAllocSpec.BlockAddressAligned | kernel/src/allocator/mod.rs:16-22 | a block address is non-null, page aligned and far below 2^64 |
| GlobalAllocSpec.AllocSpec | kernel/src/allocator/mod.rs:201-241 | `alloc` keeps the heap well formed |
| GlobalAllocSpec.DeallocSpec | kernel/src/allocator/mod.rs:243-265 | `dealloc` keeps the heap well formed |
| GlobalAllocSpec.Route | kernel/src/allocator/mod.rs:244-249 | a free inside Sleb's bounds leaves the buddy allocator alone, and any other free leaves Sleb alone |
| GlobalAllocSpec.SlebRequestIsOrder8 | kernel/src/allocator/mod.rs:37 | Sleb's 1 MiB request asks for order 8 |
| GlobalAllocSpec.SlebStartsAtHeapStart | kernel/src/allocator/mod.rs:34-43 | on the starting heap, Sleb's block is block 0 at order 8, and block 256 is pushed free onto list 8 |
| GlobalAllocSpec.SecondEmptyRecord | kernel/src/allocator/sleb.rs:93-101 | after one record is claimed on a fresh Sleb, the next Empty record is record 1 |
| GlobalAllocSpec.FirstTinyAllocationsTakeNewPages | kernel/src/allocator/sleb.rs:103-130 | the first two 8-byte allocations take the first slot of two different pages |
| GlobalAllocSpec.StartSlebOnce | kernel/src/allocator/mod.rs:34-43 | starting Sleb a second time changes nothing |
| GlobalAllocSpec.SmallAllocRoutedBack | kernel/src/allocator/mod.rs:201-249 | a small allocation that returns an address hands out one in a Sleb data page, and `dealloc` of it goes to Sleb's `free` with the buddy allocator unchanged |
| CircularBuffers.ModAdd | src/klib/containers/circular_buffer.rs:88-90 | `mod_add` panics exactly on `u32` overflow or N == 0, and otherwise is a slot index below N |
| CircularBuffers.BackIndex | src/klib/containers/circular_buffer.rs:29-35 | the back slot exists exactly when size > 0, nothing overflows and N > 0, and it is below N |
| CircularBuffers.IncStartWraps | src/klib/containers/circular_buffer.rs:37-39 | `inc_start` moves to the next slot and wraps from the last one to 0 |
| CircularBuffers.CircularBuffer.constructor | src/klib/containers/circular_buffer.rs:13-19 | a new buffer has size 0 and start 0, so it is empty |
| CircularBuffers.CircularBuffer.Empty | src/klib/containers/circular_buffer.rs:46-48 | `empty()` holds exactly when `size` is 0 |
| CircularBuffers.CircularBuffer.PushBack | src/klib/containers/circular_buffer.rs:52-66 | with N == 0 nothing happens; a full buffer overwrites the slot at `start`; otherwise the item goes to the back slot, panicking when size is 0; `start` advances and `size` never changes |
| CircularBuffers.CircularBuffer.PopBack | src/klib/containers/circular_buffer.rs:69-79 | an empty buffer gives None and is unchanged; otherwise the item of the back slot is returned and size drops by one, with `start` kept |
| CircularBuffers.FreshBufferStaysEmpty | src/klib/containers/circular_buffer.rs:13-79 | on a new buffer a push panics (or does nothing when N == 0) and a pop gives None |
| Keyboard.KeyFromByte | kernel/src/klib/ps2/keyboard.rs:389-396 | `Key::try_from` accepts exactly 0x01..0x53, 0x55 and 0x57..0x58, and keeps the byte |
| Keyboard.SpecialKeyFromByte | kernel/src/klib/ps2/keyboard.rs:448-462 | `TryFrom<u8> for SpecialKey`: a special press code maps to itself, a special release code to the code less 0x80, and anything else is an error |
| Keyboard.ReleaseIsPressPlusGap | kernel/src/klib/ps2/keyboard.rs:451-461 | the release codes are exactly the press codes plus 0x80 |
| Keyboard.SpecialKeyReleaseMatchesPress | kernel/src/klib/ps2/keyboard.rs:451-461 | `SpecialKey::try_from` accepts exactly the press codes and the press codes plus 0x80, and a release names the same key as its press |
| Keyboard.SpecialKeysAreKeys | kernel/src/klib/ps2/keyboard.rs:464-470 | every special key is a key and converts back unchanged; a byte that is no key is no special key |
| Keyboard.ExtendedKeyFromByte | kernel/src/klib/ps2/keyboard.rs:402-444 | `ExtendedKeyCode::try_from` accepts exactly the 36 listed bytes and keeps the byte |
| Keyboard.KeyTableZeroAbove | kernel/src/klib/ps2/keyboard.rs:9-26 | `KEY_TABLE` has no character from 0x3A up |
| Keyboard.KeyTable | kernel/src/klib/ps2/keyboard.rs:9-26 | the `KEY_TABLE[byte]` lookup: the character the table lists for the scan code, and NUL past the listed rows, as the source table is zero there |
| Keyboard.FromByte | kernel/src/klib/ps2/keyboard.rs:173-190 | `KeyCode::from_byte`: a special key first, then a non-zero `KEY_TABLE` character, each as a release above 0x80 and a press otherwise; None for anything else |
| Keyboard.FromExtendedByte | kernel/src/klib/ps2/keyboard.rs:192-206 | `KeyCode::from_extended_byte`: an extended key code, as a release above 0x8F and a press otherwise; None for anything else |
| Keyboard.DigitsAreSpecial | kernel/src/klib/ps2/keyboard.rs:173-190 | the digit-row codes decode as special keys, never as the digits the table holds |
| Keyboard.FromByteShape | kernel/src/klib/ps2/keyboard.rs:173-190 | `from_byte` reports a release exactly for a recognised byte above 0x80, never yields `AsciiUp`, and yields None exactly for a byte that is neither special nor in the table |
| Keyboard.FromExtendedByteOnlyPresses | kernel/src/klib/ps2/keyboard.rs:192-206 | `from_extended_byte` recognises exactly the extended codes and only ever yields `ExtendedDown` |
| Keyboard.CommandByte | kernel/src/klib/ps2/keyboard.rs:104-122 | every command byte is in 0xED..0xFF |
| Keyboard.CommandByteIdentifiesKind | kernel/src/klib/ps2/keyboard.rs:104-122 | two commands send the same byte exactly when they are the same kind |
| Keyboard.LedState.constructor | kernel/src/klib/ps2/keyboard.rs:131-134 | all LEDs start off |
| Keyboard.LedState.EnableScrollLock | kernel/src/klib/ps2/keyboard.rs:136-140 | bit 0 is set, every other bit is kept, and a second call changes nothing |
| Keyboard.LedState.EnableNumLock | kernel/src/klib/ps2/keyboard.rs:142-146 | bit 1 is set, every other bit is kept, and a second call changes nothing |
| Keyboard.LedState.EnableCapsLock | kernel/src/klib/ps2/keyboard.rs:148-152 | bit 2 is set, every other bit is kept, and a second call changes nothing |
| VgaText.ColorCodeOf | kernel/src/klib/vga_console.rs:196-201 | the background is in the high nibble and the foreground in the low one |
| VgaText.WhiteOnBlack | src/klib/vga_console.rs:8-13 | white on black is code 0x0F, which equals `Color::White as u8` |
| VgaText.SetCell | kernel/src/klib/vga_console.rs:96-99 | one cell is replaced and every other cell is kept |
| VgaText.Scrolled | kernel/src/klib/vga_console.rs:141-165 | every row moves up by one and the last row is blank in the current colour |
| VgaText.NewLine | kernel/src/klib/vga_console.rs:114-121 | the cursor goes to column 0 of the next row, or stays on the last row while the screen scrolls |
| VgaText.PutChar | kernel/src/klib/vga_console.rs:89-101 | an ordinary byte keeps the console valid and the colour unchanged, and leaves the cursor past column 0 |
| VgaText.BackspacePosition | kernel/src/klib/vga_console.rs:124-131 | `backspace` moves the cursor to a cell on the screen, one cell back in row-major order (one column left, or from column 0 to column 79 of the row above), and stays at the first cell |
| VgaText.Backspace | kernel/src/klib/vga_console.rs:123-139 | `backspace` keeps the console valid and the colour unchanged |
| VgaText.ChangeColor | kernel/src/klib/vga_console.rs:167-169 | only the colour code changes |
| VgaText.PutCharPlacesByte | kernel/src/klib/vga_console.rs:89-101 | an ordinary byte lands at the cursor, or at column 0 of the next line (scrolling from the last row) when the cursor is past column 79; no other cell changes except by that scroll |
| VgaText.BackspaceAfterPutChar | kernel/src/klib/vga_console.rs:123-139 | backspace after a byte written inside a row puts the cursor back and blanks that cell |
| VgaText.BackspaceAtOrigin | kernel/src/klib/vga_console.rs:124-138 | at the top-left corner backspace keeps the cursor and only blanks that cell |
| VgaText.BackspaceFromLineStart | kernel/src/klib/vga_console.rs:123-139 | from column 0 of a row below the first, backspace moves to column 79 of the row above and blanks that cell, nothing else |
| VgaText.BackspaceAfterNewLine | kernel/src/klib/vga_console.rs:123-139 | backspace right after a new line (not on the last row) does not return to where the text ended: it lands on column 79 of the row the new line left and blanks that cell |
| VgaText.CursorBytes | kernel/src/klib/vga_console.rs:72-75 | the low and high bytes sent to the port recombine into `row * 80 + col` |
| KernelConsole.WriteChar | kernel/src/klib/vga_console.rs:85-104 | writing a byte keeps the console valid and the colour unchanged |
| KernelConsole.WriteString | kernel/src/klib/vga_console.rs:106-112 | writing a string keeps the console valid and the colour unchanged |
| KernelConsole.WriteStringAppend | kernel/src/klib/vga_console.rs:106-110 | writing `s + [b]` is writing `s` and then `b` |
| KernelConsole.ControlBytesDrawNoGlyph | kernel/src/klib/vga_console.rs:86-88 | a newline or a backspace changes the cells only by a scroll or a blank cell |
| KernelConsole.ConsoleWriter.constructor | kernel/src/klib/vga_console.rs:50-69 | `new` blanks the whole screen in white on black and starts at (0, 0) |
| KernelConsole.ConsoleWriter.WriteAsciiChar | kernel/src/klib/vga_console.rs:85-104 | the grid and cursor become those of `WriteChar` |
| KernelConsole.ConsoleWriter.WriteAsciiString | kernel/src/klib/vga_console.rs:106-112 | the grid and cursor become those of `WriteString`, and the returned cursor bytes encode the final position |
| KernelConsole.ConsoleWriter.NewLine | kernel/src/klib/vga_console.rs:114-121 | the state becomes that of `VgaText.NewLine` |
| KernelConsole.ConsoleWriter.Backspace | kernel/src/klib/vga_console.rs:123-139 | the state becomes that of `VgaText.Backspace` |
| KernelConsole.ConsoleWriter.Scroll | kernel/src/klib/vga_console.rs:141-165 | the nested loops leave the grid of `Scrolled` |
| KernelConsole.ConsoleWriter.ChangeColor | kernel/src/klib/vga_console.rs:167-169 | the state becomes that of `VgaText.ChangeColor` |
| BootConsole.WriteChar | src/klib/vga_console.rs:38-56 | writing a byte keeps the console valid and the colour unchanged |
| BootConsole.WriteString | src/klib/vga_console.rs:58-62 | writing a string keeps the console valid and the colour unchanged |
| BootConsole.WriteStringAppend | src/klib/vga_console.rs:58-62 | writing `s + [b]` is writing `s` and then `b` |
| BootConsole.AgreesWithKernelButBackspace | src/klib/vga_console.rs:38-56 | the boot writer treats every byte but 0x08 as the kernel writer does, and draws 0x08 as a glyph |
| BootConsole.ConsoleWriter.constructor | src/klib/vga_console.rs:29-36 | the cursor starts at (0, 0) in white on black, which is code `Color::White as u8`, as the static uses |
| BootConsole.ConsoleWriter.WriteAsciiChar | src/klib/vga_console.rs:38-56 | the grid and cursor become those of `WriteChar` |
| BootConsole.ConsoleWriter.WriteAsciiString | src/klib/vga_console.rs:58-62 | the grid and cursor become those of `WriteString` |
| BootConsole.ConsoleWriter.NewLine | src/klib/vga_console.rs:64-71 | the state becomes that of `VgaText.NewLine` |
| BootConsole.ConsoleWriter.Scroll | src/klib/vga_console.rs:73-97 | the nested loops leave the grid of `Scrolled` |
| BootConsole.ConsoleWriter.ChangeColor | src/klib/vga_console.rs:99-101 | the state becomes that of `VgaText.ChangeColor` |
| Acpi.WrappingSub | kernel/src/klib/acpi/rsdp.rs:47-53 | `wrapping_sub` gives the byte that added to `b` wraps to `a` |
| Acpi.WrappingSum | kernel/src/klib/acpi/rsdp.rs:47-49 | the `u8` left fold `fold(0, \|acc, &x\| acc.wrapping_add(x))`, also used at kernel/src/klib/acpi/mod.rs:21; `WrappingSumIsSumMod` ties it to the plain sum |
| Acpi.WrappingSumIsSumMod | kernel/src/klib/acpi/rsdp.rs:47-49 | the wrapping `u8` fold is the plain sum mod 256 |
| Acpi.WrappingSumPermutation | kernel/src/klib/acpi/rsdp.rs:47-49 | reordering the bytes does not change the fold |
| Acpi.ValidateSignature | kernel/src/klib/acpi/rsdp.rs:27-29 | `validate_signature`: the first eight bytes read "RSD PTR " |
| Acpi.ValidateChecksum | kernel/src/klib/acpi/rsdp.rs:43-64 | `validate_checksum`: the fold of bytes 0..20 less the checksum must equal the checksum; revision 0 stops there, any other revision also needs the fold of bytes 20..36 less the extended checksum to equal the extended checksum |
| Acpi.ValidateSdtChecksum | kernel/src/klib/acpi/mod.rs:20-33 | `SdtHeader::validate_checksum`: the fold of the first `length` bytes less the checksum byte is zero |
| Acpi.GetSdtAddr | kernel/src/klib/acpi/rsdp.rs:32-41 | `get_sdt_addr` returns None exactly when the checksum fails; the signature is not consulted |
| Acpi.RsdpChecksumMeaning | kernel/src/klib/acpi/rsdp.rs:43-64 | the RSDP passes exactly when the sum of bytes 0..20 is twice the checksum mod 256 and, for a revision other than 0, the same holds for bytes 20..36 and the extended checksum |
| Acpi.RsdpChecksumPermutation | kernel/src/klib/acpi/rsdp.rs:43-64 | the verdict depends only on the multisets of the two checked ranges and on the checksum, extended checksum and revision bytes |
| Acpi.ZeroRsdpAccepted | kernel/src/klib/acpi/rsdp.rs:27-41 | 36 zero bytes fail the signature check but pass the checksum, giving an RSDT address of 0 |
| Acpi.RsdpStandardAgreement | kernel/src/klib/acpi/rsdp.rs:43-57 | for a revision-0 table whose bytes sum to 0 mod 256, as the standard requires, the code accepts exactly checksums 0 and 128 |
| Acpi.SdtChecksumMeaning | kernel/src/klib/acpi/mod.rs:20-24 | the header passes exactly when the bytes other than the checksum sum to 0 mod 256; when the length does not reach the checksum byte, the sum must instead equal that byte |
| Acpi.SdtStandardAgreement | kernel/src/klib/acpi/mod.rs:20-24 | for a table whose bytes sum to 0 mod 256, as the standard requires, the code accepts exactly a checksum byte of 0 |
| Acpi.SdtChecksumPermutation | kernel/src/klib/acpi/mod.rs:20-33 | the verdict depends only on the multiset of the covered bytes and on the checksum byte |
| Pci.PciAddress | kernel/src/klib/pci/pcistate.rs:136-147 | bit 31 is always set, and the low byte is the offset with its two low bits cleared |
| Pci.PciAddressFields | kernel/src/klib/pci/pcistate.rs:136-147 | for bus < 256, slot < 32 and func < 8 the fields decode back unchanged and bits 24..30 are clear |
| Pci.PciAddressInjective | kernel/src/klib/pci/pcistate.rs:136-147 | within those ranges, different devices get different addresses |
| Pci.SlotOverflowAliasesBus | kernel/src/klib/pci/pcistate.rs:136-147 | slot 32, which is not masked, gives the address of slot 0 on bus `bus \| 1` |
| Pci.AddressOf | kernel/src/klib/pci/pcistate.rs:136-147 | `pci_address` of a (bus, slot, function) triple given as `u32` values |
| Pci.NextAddrFrom | kernel/src/klib/pci/pcistate.rs:100-133 | what `next_addr`'s loop returns: step, stop once the bus reaches 8 or the cache-line-size dword at the new triple is not 0xFF, otherwise step again; an overflowing `+= 1` panics |
| Pci.PciState.ConfigRead32 | kernel/src/klib/pci/pcistate.rs:17-33 | `config_read_32`: the dword the configuration space holds at `pci_address` of the arguments |
| Pci.PciState.constructor | kernel/src/klib/pci/pcistate.rs:12-14 | `PCIState::new`, with the configuration space the ports reach as a parameter |
| Pci.SelectWord | kernel/src/klib/pci/pcistate.rs:35-51 | `config_read_16` takes bits 16..31 when offset bit 1 is set and bits 0..15 otherwise |
| Pci.SelectByte | kernel/src/klib/pci/pcistate.rs:53-68 | `config_read_8` takes the high byte of that word when offset bit 0 is set and the low byte otherwise |
| Pci.SelectByteOfDword | kernel/src/klib/pci/pcistate.rs:35-68 | together they read byte `offset & 3` of the dword |
| Pci.Step | kernel/src/klib/pci/pcistate.rs:109-121 | one pass of the loop, when it does not overflow, moves strictly forward in (bus, slot, func) order |
| Pci.SkipsSlot | kernel/src/klib/pci/pcistate.rs:109 | the slot-skip test of `next_addr`: the dword is all ones or bit 23 (multi-function) is clear |
| Pci.NextAddrStops | kernel/src/klib/pci/pcistate.rs:123-131 | `next_addr` returns only once bus >= 8, or at an address whose header dword is not 0xFF |
| Pci.NextAddrAdvances | kernel/src/klib/pci/pcistate.rs:100-133 | the address returned is after the starting one |
| Pci.EmptyScanRunsToEnd | kernel/src/klib/pci/pcistate.rs:100-133 | with every header dword 0xFF and the slot-skip test set, the scan runs to (8, 0, 0) |
| Pci.SlotThirtyTwoReached | kernel/src/klib/pci/pcistate.rs:109-121 | stepping functions from (bus, 31, 7) reaches slot 32, which only a skip step moves past |
| Pci.Advance | kernel/src/klib/pci/pcistate.rs:109-121 | the imperative step is `Step` |
| Pci.PciState.ConfigRead16 | kernel/src/klib/pci/pcistate.rs:35-51 | the word read is the half of the configuration dword that offset bit 1 selects |
| Pci.PciState.ConfigRead8 | kernel/src/klib/pci/pcistate.rs:53-68 | the byte read is byte `offset & 3` of the configuration dword |
| Pci.PciState.ConfigWrite16 | kernel/src/klib/pci/pcistate.rs:70-87 | a 16-bit write replaces the low word of the addressed dword and nothing else |
| Pci.PciState.EnableInterrupts | kernel/src/klib/pci/pcistate.rs:89-97 | the Command register is written back with only bit 10 cleared, and nothing else changes |
| Pci.PciState.NextAddr | kernel/src/klib/pci/pcistate.rs:100-133 | the loop returns what `NextAddrFrom` gives, with the skip test fixed by the header dword read once at the start |
| PageTables.FlagBit | kernel/src/klib/x86_64/pagetable.rs:18-29 | each flag is a single bit among bits 0..8, outside the address field |
| PageTables.FlagBitsDistinct | kernel/src/klib/x86_64/pagetable.rs:18-29 | different flags occupy different bits |
| PageTables.HasFlag | kernel/src/klib/x86_64/pagetable.rs:43-45 | `get_flag` on a raw word: the flag's bit is set |
| PageTables.WithFlag | kernel/src/klib/x86_64/pagetable.rs:53-55 | after `set_flag` the flag is set and every other bit is kept |
| PageTables.WithoutFlag | kernel/src/klib/x86_64/pagetable.rs:48-50 | after `clear_flag` the flag is clear and every other bit is kept |
| PageTables.Addr | kernel/src/klib/x86_64/pagetable.rs:58-60 | the address lies in bits 12..51 |
| PageTables.OtherFlagsKept | kernel/src/klib/x86_64/pagetable.rs:43-55 | setting or clearing a flag never changes `get_flag` of another |
| PageTables.AddrIgnoresFlags | kernel/src/klib/x86_64/pagetable.rs:48-60 | setting or clearing a flag never changes `addr` |
| PageTables.ClearUndoesSet | kernel/src/klib/x86_64/pagetable.rs:48-55 | clearing a flag undoes setting it on a word that did not have it |
| PageTables.PageTableEntry.constructor | kernel/src/klib/x86_64/pagetable.rs:33-35 | a new entry is zero |
| PageTables.PageTableEntry.ZeroOut | kernel/src/klib/x86_64/pagetable.rs:38-40 | `zero_out` makes the entry zero |
| PageTables.PageTableEntry.SetFlag | kernel/src/klib/x86_64/pagetable.rs:53-55 | the entry becomes `WithFlag`: the flag reads set and the address is unchanged |
| PageTables.PageTableEntry.GetFlag | kernel/src/klib/x86_64/pagetable.rs:43-45 | `get_flag` on the entry's raw word |
| PageTables.PageTableEntry.Address | kernel/src/klib/x86_64/pagetable.rs:57-60 | `addr` of the entry: its raw word masked to bits 12..51 |
| PageTables.PageTableEntry.ClearFlag | kernel/src/klib/x86_64/pagetable.rs:48-50 | the entry becomes `WithoutFlag`: the flag reads clear and the address is unchanged |
| PageTables.PageTable.constructor | kernel/src/klib/x86_64/pagetable.rs:64-68 | a new table has 512 zero entries |
| PageTables.PageTable.ZeroOut | kernel/src/klib/x86_64/pagetable.rs:70-74 | every entry becomes zero |
| Idt.PresentMask | src/klib/idt.rs:101-105 | the mask of `set_present` is 0x8000 for true and 0 for false |
| Idt.InterruptsMask | src/klib/idt.rs:107-112 | the mask of `disable_interrupts_when_invoked` is 0xFF00 for true and 0xFE00 for false |
| Idt.PrivilegeMask | src/klib/idt.rs:114-118 | the mask of `set_privilege_level` is 0x8000 for Kernel and 0xE000 for User |
| Idt.StackIndexMask | src/klib/idt.rs:124-128 | the mask of `set_stack_index` exists exactly when `index + 1` does not overflow, keeps bits 3..15 and has `(index + 1) & 7` below |
| Idt.EntryOptions.Minimal | src/klib/idt.rs:96-99 | `minimal()` is 0x0E00 |
| Idt.EntryOptions.SetPresent | src/klib/idt.rs:101-105 | the word is ANDed with the present mask, so it only loses bits |
| Idt.EntryOptions.DisableInterruptsWhenInvoked | src/klib/idt.rs:107-112 | the word is ANDed with the interrupts mask, so it only loses bits |
| Idt.EntryOptions.SetPrivilegeLevel | src/klib/idt.rs:114-118 | the word is ANDed with the privilege mask, so it only loses bits |
| Idt.EntryOptions.SetStackIndex | src/klib/idt.rs:124-128 | the word is ANDed with the stack-index mask, or is left as it was when index 0xFFFF overflows; either way it only loses bits |
| Idt.MaskedIsSubset | src/klib/idt.rs:101-128 | for every argument, the word each of the four setters leaves (present, interrupts, privilege and stack-index masks) is a bitwise subset of the word it was given |
| Idt.SetPresentKeepsBit15 | src/klib/idt.rs:101-105 | `set_present(true)` keeps only bit 15 and `set_present(false)` clears everything |
| Idt.StackIndexKeepsHighBits | src/klib/idt.rs:124-128 | `set_stack_index` keeps bits 3..15 and can only clear bits 0..2 |
| Idt.EntryEq | src/klib/idt.rs:75-83 | `PartialEq for Entry`: every field compared except the reserved `zero` |
| Idt.MinimalGateNeverPresent | src/klib/idt.rs:96-128 | a minimal gate made present is the zero word, and a stack index leaves a minimal word as it is |
| Idt.EmptyEntry | src/klib/idt.rs:48-60 | an empty entry has zero pointer, selector and reserved fields and minimal options |
| Idt.EntryEqIgnoresZero | src/klib/idt.rs:75-83 | two entries are equal exactly when they agree once the reserved word is ignored |
| Idt.EntryEqEquivalence | src/klib/idt.rs:75-83 | entry equality is reflexive, symmetric and transitive |
| Idt.ErrorCodeOf | src/klib/idt.rs:147-175 | an error code built from the five flags has no bit above bit 4 |
| Idt.AccessorsReadFlags | src/klib/idt.rs:147-175 | each accessor reads back its own flag: present, write, user, reserved, instruction fetch in bits 0..4 |
| Idt.AccessorsDetermineLowBits | src/klib/idt.rs:147-175 | the accessors see exactly bits 0..4 of the code |
| Idt.PageFaultErrorCode.Present | src/klib/idt.rs:151-154 | `present`: bit 0 of the error code is set |
| Idt.PageFaultErrorCode.Write | src/klib/idt.rs:156-159 | `write`: bit 1 is set |
| Idt.PageFaultErrorCode.User | src/klib/idt.rs:161-164 | `user`: bit 2 is set |
| Idt.PageFaultErrorCode.Reserved | src/klib/idt.rs:166-169 | `reserved`: bit 3 is set |
| Idt.PageFaultErrorCode.InstructionFetch | src/klib/idt.rs:171-174 | `instruction_fetch`: bit 4 is set |
| X86.NewUnsafe | src/klib/x86_64.rs:151-154 | the address is stored unchanged |
| X86.New | src/klib/x86_64.rs:159-169 | `new` accepts exactly when bits 47..63 are all clear, and then stores the address unchanged |
| X86.NewAcceptsLowHalf | src/klib/x86_64.rs:159-169 | the accepted addresses are exactly those below 2^47 |
| X86.NewRejectsHighHalf | src/klib/x86_64.rs:143-169 | the canonical upper-half address 0xFFFF_8000_0000_0000 is rejected by `new` and kept by `new_unsafe` |
| X86.InterruptsEnabledIn | src/klib/x86_64.rs:54-59 | `interrupts_enabled` on an RFLAGS value: bit 9 (IF) is set; `> 0` on the unsigned word is `!= 0` |
| X86.Cpu.InterruptsEnabled | src/klib/x86_64.rs:54-59 | `read_rflags` then the bit-9 test on the processor's current RFLAGS |
| X86.Cpu.EnableInterrupts | src/klib/x86_64.rs:29-34 | `sti` sets IF and nothing else |
| X86.Cpu.DisableInterrupts | src/klib/x86_64.rs:36-41 | `cli` clears IF and nothing else |
| X86.Cpu.WithoutInterrupts | src/klib/x86_64.rs:61-80 | the closure's result is returned, the closure runs with interrupts disabled, and RFLAGS ends as it began; the `cli` before and `sti` after happen exactly when interrupts were enabled on entry |

## Left out

- Locks, `lazy_static!` and the statics (`ALLOCATOR`, `SLEB_ALLOCATOR`, `TINY_BUCKETS`, `MEDIUM_BUCKETS`, `CONSOLE_WRITER`) are concurrency plumbing. The allocators are explicit objects, and the buckets are fields of the Sleb state.
- `init_heap` maps pages through an external crate. The model assumes the heap is mapped.
- The `println!` calls in Sleb are debug output.
- Memory that clients write into their slots is not modelled, although a client could overwrite a tiny page's in-page bitmap.
- SlebAllocation.SlebMetadataPage.TinyWalk: a bucket loop still going after 256 passes stops with the outcome `Hangs` instead of looping. `SlebProperties.TinyScanNeverEnds` shows that such a loop never ends.
- SlebAllocation.SlebMetadataPage.MediumWalk: the same bound as `TinyWalk`, with `SlebProperties.MediumScanNeverEnds`.
- GlobalAllocSpec.StartSleb: the 1 MiB block's address is taken from the buddy allocator. When the buddy allocator has no block, the zero fill through null is modelled as a panic.
- `MetadataPage::take_slot` is part of the allocation specifications. It has no contract of its own.
- `CircularBuffer::pop_back_unchecked` is not modelled: it reads the back slot with no check at all, so what it returns from a slot never written is undefined behaviour. In `CircularBuffers.CircularBuffer.PopBack`, where `assume_init_read` would read a slot never written (undefined behaviour in the source), the model returns `Panic`.
- CircularBuffers.CircularBuffer.constructor: takes a capacity below 2^32, so the `N as u32` truncation does not arise.
- The `Keyboard` struct methods are port I/O over a kernel ring buffer that is not part of this model. The boot-stage keyboard file duplicates `LEDState`.
- The hardware side of the VGA consoles, that is the port writes of `move_cursor` and the cursor setup in `new`, is left out. `move_cursor`'s position value is `VgaText.CursorBytes`.
- Pci.PciState.ConfigRead32: the configuration space is a function from addresses to dwords. The port writes and reads are not modelled.
- Pci.PciState.ConfigWrite16: only 16-bit writes to the low word of a dword are modelled, which is the only write the source makes (the Command register).
- Other PCI register bitfields (`StatusRegister` and the rest of `CommandRegister`), the IDE controller, AHCI, the PIC, the PS/2 controller, the framebuffer, ext2, `memory.rs`, the `main.rs` files, `once_lock.rs`, `util.rs` and `xsdt.rs` are device plumbing, foreign types or declarations. None of them is part of this model.
- X86.Cpu.WithoutInterrupts: the closure is a pure function of the interrupt state it runs under. Any side effects of its own are not modelled.
- `read_rflags`'s `pushfq` is the `rflags` field of `Cpu`.
- PageTables.Addr: `addr` returns the kernel's `PhysicalAddress` type, which is not part of this model. The model returns the raw masked word.
- Keyboard.KeyTableZeroAbove: states only the zero part of `KEY_TABLE`. The characters below 0x3A appear in the model's table but have no lemma of their own.
