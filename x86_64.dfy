/**
 * CPU helpers of the boot stage (`src/klib/x86_64.rs`): the canonical
 * address check, the interrupt flag of RFLAGS, and running a closure with
 * interrupts masked. The `sti`/`cli`/`pushfq` instructions act on a
 * `Cpu` object holding RFLAGS.
 */
module X86 {
  import opened Common

  /** The bits `CanonicalAddress::new` inspects: bits 48..63, and bit 47. */
  const HIGH_MASK: bv64 := 0xFFFF_0000_0000_0000
  const BIT_47: bv64 := 0x8000_0000_0000

  /** RFLAGS.IF, `1 << 9`. */
  const INTERRUPT_FLAG: bv64 := 0x200

  datatype CanonicalAddress = CanonicalAddress(addr: bv64)

  /** `new_unsafe`: the address is stored as given. */
  function NewUnsafe(addr: bv64): (c: CanonicalAddress)
    ensures c.addr == addr
  {
    CanonicalAddress(addr)
  }

  /**
   * `new`: panics when bits 48..63 are neither all clear nor all set,
   * when they are set (`mask > 0`) but bit 47 is clear, or when bit 47 is
   * set. The last test rejects every high-half address the doc comment
   * calls valid, so only addresses below 2^47 pass.
   */
  function New(addr: bv64): (r: Outcome<CanonicalAddress>)
    ensures r.Ok? <==> addr & (HIGH_MASK | BIT_47) == 0
    ensures r.Ok? ==> r.value.addr == addr
  {
    var mask := addr & HIGH_MASK;
    if (mask != HIGH_MASK && mask != 0) || (mask != 0 && addr & BIT_47 == 0) || addr & BIT_47 != 0 then
      Panic
    else
      Ok(CanonicalAddress(addr))
  }

  /** The accepted addresses are exactly those below 2^47. */
  lemma NewAcceptsLowHalf(addr: bv64)
    ensures New(addr).Ok? <==> addr < 0x8000_0000_0000
  {
  }

  /** The sign-extended high-half address 0xFFFF_8000_0000_0000, canonical by definition, is rejected. */
  lemma NewRejectsHighHalf()
    ensures New(0xFFFF_8000_0000_0000).Panic?
    ensures NewUnsafe(0xFFFF_8000_0000_0000).addr == 0xFFFF_8000_0000_0000
  {
  }

  /** `interrupts_enabled` on a value of RFLAGS: bit 9 (`> 0` on an unsigned word is `!= 0`). */
  predicate InterruptsEnabledIn(rflags: bv64)
  {
    rflags & INTERRUPT_FLAG != 0
  }

  /** The processor's RFLAGS, and the `sti`/`cli` instructions executed so far (true for `sti`). */
  class Cpu {
    var rflags: bv64
    ghost var toggles: seq<bool>

    constructor(rflags: bv64)
      ensures this.rflags == rflags && toggles == []
    {
      this.rflags := rflags;
      toggles := [];
    }

    /** `read_rflags` then the bit test of `interrupts_enabled`. */
    predicate InterruptsEnabled()
      reads this
    {
      InterruptsEnabledIn(rflags)
    }

    /** `enable_interrupts`: `sti` sets IF and nothing else. */
    method EnableInterrupts()
      modifies this
      ensures rflags == old(rflags) | INTERRUPT_FLAG && InterruptsEnabled()
      ensures toggles == old(toggles) + [true]
    {
      rflags := rflags | INTERRUPT_FLAG;
      toggles := toggles + [true];
    }

    /** `disable_interrupts`: `cli` clears IF and nothing else. */
    method DisableInterrupts()
      modifies this
      ensures rflags == old(rflags) & !INTERRUPT_FLAG && !InterruptsEnabled()
      ensures toggles == old(toggles) + [false]
    {
      rflags := rflags & !INTERRUPT_FLAG;
      toggles := toggles + [false];
    }

    /**
     * `without_interrupts(f)`: `f` receives the interrupt state it runs
     * under, which is always disabled. A `cli` before it and a `sti`
     * after it happen only when interrupts were enabled on entry, and
     * RFLAGS ends as it began.
     */
    method WithoutInterrupts<R>(f: bool -> R) returns (result: R)
      modifies this
      ensures result == f(false)
      ensures rflags == old(rflags)
      ensures old(InterruptsEnabled()) ==> toggles == old(toggles) + [false, true]
      ensures !old(InterruptsEnabled()) ==> toggles == old(toggles)
    {
      var enabled := InterruptsEnabled();
      if enabled {
        DisableInterrupts();
      }
      result := f(InterruptsEnabled());
      if enabled {
        EnableInterrupts();
      }
    }
  }
}
