/**
 * Interrupt descriptor table pieces (sections 6.14.1 and 4.7 of the Intel
 * SDM, Volume 3A): the 16-bit options word of a gate, the 64-bit gate
 * entry with its equality, and the page-fault error code. Every options
 * setter ANDs a mask into the word as written, so none of them ever sets
 * a bit: starting from `minimal()` (type bits 9..11 set, present bit
 * clear) no setter can make a gate present.
 */
module Idt {
  import opened Common

  /*
   * EntryOptions
   */

  /** `EntryOptions::minimal()`: bits 9, 10 and 11. */
  const MINIMAL: bv16 := 0x0E00

  function BoolBit(b: bool): bv16
  {
    if b then 1 else 0
  }

  /** The mask `set_present(present)` ANDs in: `((!1) | present) << 15`. */
  function PresentMask(present: bool): (m: bv16)
    ensures m == if present then 0x8000 else 0
  {
    ((!1) | BoolBit(present)) << 15
  }

  /** The mask `disable_interrupts_when_invoked(p)` ANDs in: `((!1) | p) << 8`. */
  function InterruptsMask(p: bool): (m: bv16)
    ensures m == if p then 0xFF00 else 0xFE00
  {
    ((!1) | BoolBit(p)) << 8
  }

  /** `PrivilegeLevel`. */
  datatype PrivilegeLevel = Kernel | User
  {
    function Value(): bv16
    {
      if this == Kernel then 0 else 3
    }
  }

  /** The mask `set_privilege_level(level)` ANDs in: `((!0b11) | level) << 13`. */
  function PrivilegeMask(level: PrivilegeLevel): (m: bv16)
    ensures m == if level == Kernel then 0x8000 else 0xE000
  {
    ((!3) | level.Value()) << 13
  }

  /**
   * The mask `set_stack_index(index)` ANDs in: `(!0b111) | (index + 1)`;
   * the `u16` addition overflows, and panics, for index 0xFFFF.
   */
  function StackIndexMask(index: bv16): (m: Outcome<bv16>)
    ensures m.Ok? <==> index != 0xFFFF
    ensures m.Ok? ==> m.value & 0xFFF8 == 0xFFF8 && m.value & 7 == (index + 1) & 7
  {
    if index == 0xFFFF then Panic else Ok(!7 | (index + 1))
  }

  /** `EntryOptions`. */
  class EntryOptions {
    var bits: bv16

    /** `minimal()`. */
    constructor Minimal()
      ensures bits == MINIMAL
    {
      bits := MINIMAL;
    }

    method SetPresent(present: bool)
      modifies this
      ensures bits == old(bits) & PresentMask(present)
      ensures bits & !old(bits) == 0
    {
      bits := bits & PresentMask(present);
    }

    method DisableInterruptsWhenInvoked(p: bool)
      modifies this
      ensures bits == old(bits) & InterruptsMask(p)
      ensures bits & !old(bits) == 0
    {
      bits := bits & InterruptsMask(p);
    }

    method SetPrivilegeLevel(level: PrivilegeLevel)
      modifies this
      ensures bits == old(bits) & PrivilegeMask(level)
      ensures bits & !old(bits) == 0
    {
      bits := bits & PrivilegeMask(level);
    }

    /** `set_stack_index`: on the overflow panic the word is left as it was. */
    method SetStackIndex(index: bv16) returns (r: Outcome<()>)
      modifies this
      ensures r.Ok? <==> index != 0xFFFF
      ensures r.Ok? ==> bits == old(bits) & StackIndexMask(index).value
      ensures r.Panic? ==> bits == old(bits)
      ensures bits & !old(bits) == 0
    {
      if index == 0xFFFF {
        return Panic;
      }
      bits := bits & StackIndexMask(index).value;
      return Ok(());
    }
  }

  /**
   * Each of the four setters only clears bits: the word it leaves is a
   * bitwise subset of the word it was given.
   */
  lemma MaskedIsSubset(bits: bv16, present: bool, p: bool, level: PrivilegeLevel, index: bv16)
    ensures (bits & PresentMask(present)) & !bits == 0
    ensures (bits & InterruptsMask(p)) & !bits == 0
    ensures (bits & PrivilegeMask(level)) & !bits == 0
    ensures StackIndexMask(index).Ok? ==> (bits & StackIndexMask(index).value) & !bits == 0
  {
  }

  /** `set_present(true)` keeps only bit 15, and `set_present(false)` clears everything. */
  lemma SetPresentKeepsBit15(bits: bv16)
    ensures bits & PresentMask(true) == bits & 0x8000
    ensures bits & PresentMask(false) == 0
  {
  }

  /** `set_stack_index` keeps bits 3..15 and can only clear bits 0..2. */
  lemma StackIndexKeepsHighBits(bits: bv16, index: bv16)
    requires index != 0xFFFF
    ensures (bits & StackIndexMask(index).value) & 0xFFF8 == bits & 0xFFF8
    ensures (bits & StackIndexMask(index).value) & 7 == bits & (index + 1) & 7
  {
  }

  /**
   * A minimal gate made present is the zero word, and the stack-index
   * setter leaves a minimal word as it is whatever the index.
   */
  method MinimalGateNeverPresent(index: bv16) returns (present: bv16, stacked: Outcome<bv16>)
    ensures present == 0
    ensures index != 0xFFFF ==> stacked == Ok(MINIMAL)
    ensures index == 0xFFFF ==> stacked == Panic
  {
    var o := new EntryOptions.Minimal();
    o.SetPresent(true);
    present := o.bits;
    var o2 := new EntryOptions.Minimal();
    var r := o2.SetStackIndex(index);
    stacked := if r.Ok? then Ok(o2.bits) else Panic;
  }

  /*
   * Entry
   */

  /** `Entry<F>`: the handler pointer in three parts, the selector, the options and a reserved word. */
  datatype Entry = Entry(pointerLow: bv16, gdtSelector: bv16, options: bv16,
                         pointerMiddle: bv16, pointerHigh: bv32, zero: bv32)

  /** `Entry::empty()`: everything zero except the minimal options. */
  function EmptyEntry(): (e: Entry)
    ensures e.options == MINIMAL
    ensures e.pointerLow == 0 && e.pointerMiddle == 0 && e.pointerHigh == 0 && e.gdtSelector == 0 && e.zero == 0
  {
    Entry(0, 0, MINIMAL, 0, 0, 0)
  }

  /** `PartialEq for Entry`: every field but `zero`. */
  predicate EntryEq(a: Entry, b: Entry)
  {
    && a.pointerLow == b.pointerLow
    && a.gdtSelector == b.gdtSelector
    && a.options == b.options
    && a.pointerMiddle == b.pointerMiddle
    && a.pointerHigh == b.pointerHigh
  }

  /** Entry equality is equality once the reserved word is ignored. */
  lemma EntryEqIgnoresZero(a: Entry, b: Entry)
    ensures EntryEq(a, b) <==> a.(zero := 0) == b.(zero := 0)
  {
  }

  /** Entry equality is an equivalence relation. */
  lemma EntryEqEquivalence(a: Entry, b: Entry, c: Entry)
    ensures EntryEq(a, a)
    ensures EntryEq(a, b) ==> EntryEq(b, a)
    ensures EntryEq(a, b) && EntryEq(b, c) ==> EntryEq(a, c)
  {
  }

  /*
   * PageFaultErrorCode
   */

  /** `PageFaultErrorCode`: the error code the processor pushes for a page fault. */
  datatype PageFaultErrorCode = PageFaultErrorCode(code: bv64)
  {
    predicate Present() { code & 1 != 0 }
    predicate Write() { code & (1 << 1) != 0 }
    predicate User() { code & (1 << 2) != 0 }
    predicate Reserved() { code & (1 << 3) != 0 }
    predicate InstructionFetch() { code & (1 << 4) != 0 }
  }

  /** The error code with bits 0..4 from the five flags and no other bit. */
  function ErrorCodeOf(present: bool, write: bool, user: bool, reserved: bool, fetch: bool): (e: PageFaultErrorCode)
    ensures e.code & !0x1F == 0
  {
    PageFaultErrorCode(
      (if present then 1 else 0) | (if write then 2 else 0) | (if user then 4 else 0)
      | (if reserved then 8 else 0) | (if fetch then 16 else 0))
  }

  /** Each accessor reads back its own flag. */
  lemma AccessorsReadFlags(present: bool, write: bool, user: bool, reserved: bool, fetch: bool)
    ensures var e := ErrorCodeOf(present, write, user, reserved, fetch);
      && e.Present() == present && e.Write() == write && e.User() == user
      && e.Reserved() == reserved && e.InstructionFetch() == fetch
  {
  }

  /** The accessors see only bits 0..4: an error code is the one built from its flags, plus higher bits. */
  lemma AccessorsDetermineLowBits(e: PageFaultErrorCode)
    ensures ErrorCodeOf(e.Present(), e.Write(), e.User(), e.Reserved(), e.InstructionFetch()).code == e.code & 0x1F
  {
  }
}
