/**
 * PCI configuration access through configuration mechanism #1 (section
 * 3.2.2.3.2 of the PCI Local Bus Specification 3.0): the 32-bit address
 * written to port 0xCF8, the word and byte selection out of the dword read
 * from port 0xCFC, the read-modify-write of the command register, and the
 * bus/slot/function stepper `next_addr`. The configuration space behind
 * the ports is a function from address to dword held by `PciState`.
 */
module Pci {
  import opened Common

  const U32_LIMIT: int := 0x1_0000_0000

  const MAX_BUSES: int := 8
  const MAX_SLOTS: int := 32
  const MAX_FUNCS: int := 8

  /** `Register`, by its offset in the configuration header. */
  type Register = bv8

  const COMMAND: Register := 0x04
  const CACHE_LINE_SIZE: Register := 0x0C

  /** `CommandRegister::interrupt_disable` is bit 10. */
  const INTERRUPT_DISABLE: bv16 := 0x0400

  /**
   * `pci_address`: the enable bit 31, then bus, slot and function shifted
   * to bits 16, 11 and 8 (out-of-range values are not masked, and shifted
   * out bits are lost), and the offset with its low two bits dropped.
   */
  function PciAddress(bus: bv32, slot: bv32, func: bv32, offset: Register): (a: bv32)
    ensures a & 0x8000_0000 != 0
    ensures a & 0xFF == (offset & 0xFC) as bv32
  {
    0x8000_0000 | (bus << 16) | (slot << 11) | (func << 8) | ((offset as bv32) & 0xFC)
  }

  /** For a bus below 256, a slot below 32 and a function below 8, each field reads back from the address. */
  lemma PciAddressFields(bus: bv32, slot: bv32, func: bv32, offset: Register)
    requires bus < 256 && slot < 32 && func < 8
    ensures var a := PciAddress(bus, slot, func, offset);
      && (a >> 16) & 0xFF == bus && (a >> 11) & 0x1F == slot && (a >> 8) & 0x7 == func
      && (a >> 24) & 0x7F == 0
  {
  }

  /** Distinct in-range (bus, slot, function) triples address distinct configuration dwords. */
  lemma PciAddressInjective(bus: bv32, slot: bv32, func: bv32, bus': bv32, slot': bv32, func': bv32, offset: Register)
    requires bus < 256 && slot < 32 && func < 8 && bus' < 256 && slot' < 32 && func' < 8
    requires PciAddress(bus, slot, func, offset) == PciAddress(bus', slot', func', offset)
    ensures bus == bus' && slot == slot' && func == func'
  {
    PciAddressFields(bus, slot, func, offset);
    PciAddressFields(bus', slot', func', offset);
  }

  /**
   * Slot 32 is not masked: its bit lands on bit 0 of the bus field, so it
   * addresses slot 0 of bus `bus | 1` (the next bus when `bus` is even).
   */
  lemma SlotOverflowAliasesBus(bus: bv32, func: bv32, offset: Register)
    ensures PciAddress(bus, 32, func, offset) == PciAddress(bus | 1, 0, func, offset)
  {
  }

  /** The word `config_read_16` takes from the dword: the high half when offset bit 1 is set. */
  function SelectWord(dword: bv32, offset: Register): (w: bv16)
    ensures offset & 2 != 0 ==> w as bv32 == dword >> 16
    ensures offset & 2 == 0 ==> w as bv32 == dword & 0xFFFF
  {
    ((dword >> (((offset & 2) * 8) as bv32)) & 0xFFFF) as bv16
  }

  /** The byte `config_read_8` takes from that word: the high byte when offset bit 0 is set. */
  function SelectByte(word: bv16, offset: Register): (b: bv8)
    ensures offset & 1 != 0 ==> b as bv16 == word >> 8
    ensures offset & 1 == 0 ==> b as bv16 == word & 0xFF
  {
    if offset & 1 > 0 then (word >> 8) as bv8 else (word & 0xFF) as bv8
  }

  /** The byte read is byte `offset & 3` of the dword. */
  lemma SelectByteOfDword(dword: bv32, offset: Register)
    ensures (SelectByte(SelectWord(dword, offset), offset) as bv32) == (dword >> (((offset & 3) * 8) as bv32)) & 0xFF
  {
  }

  /** `next_addr`'s test on the dword read at the start: the slot holds no multi-function device to walk. */
  predicate SkipsSlot(lthbc: bv32)
  {
    lthbc == 0xFFFF_FFFF || lthbc & 0x80_0000 == 0
  }

  /**
   * One pass of `next_addr`'s loop before the bus test. With the skip
   * test true at function 0 the slot advances, and past the last slot the
   * bus does; otherwise the function advances, and past the last function
   * the slot does, with no wrap of the slot. Every `+= 1` panics on `u32`
   * overflow.
   */
  function Step(skip: bool, bus: int, slot: int, func: int): (r: Outcome<(int, int, int)>)
    requires 0 <= bus < U32_LIMIT && 0 <= slot < U32_LIMIT && 0 <= func < U32_LIMIT
    ensures r.Ok? ==>
      && 0 <= r.value.0 < U32_LIMIT && 0 <= r.value.1 < U32_LIMIT && 0 <= r.value.2 < U32_LIMIT
      && (r.value.0 > bus
          || (r.value.0 == bus && r.value.1 > slot)
          || (r.value.0 == bus && r.value.1 == slot && r.value.2 > func))
  {
    if func == 0 && skip then
      if slot + 1 >= U32_LIMIT then Panic
      else if slot + 1 >= MAX_SLOTS then
        if bus + 1 >= U32_LIMIT then Panic else Ok((bus + 1, 0, func))
      else Ok((bus, slot + 1, func))
    else
      if func + 1 >= U32_LIMIT then Panic
      else if func + 1 >= MAX_FUNCS then
        if slot + 1 >= U32_LIMIT then Panic else Ok((bus, slot + 1, 0))
      else Ok((bus, slot, func + 1))
  }

  /** The configuration address of a (bus, slot, function) triple at `offset`. */
  function AddressOf(bus: int, slot: int, func: int, offset: Register): bv32
    requires 0 <= bus < U32_LIMIT && 0 <= slot < U32_LIMIT && 0 <= func < U32_LIMIT
  {
    PciAddress(bus as bv32, slot as bv32, func as bv32, offset)
  }

  /**
   * What `next_addr` returns from (bus, slot, func), given the skip test
   * of the dword it read at the start: step, stop once the bus reaches 8
   * or the dword at the new triple's cache-line-size register is not
   * 0xFF, and step again otherwise.
   */
  function NextAddrFrom(config: bv32 -> bv32, skip: bool, bus: int, slot: int, func: int): Outcome<(int, int, int)>
    requires 0 <= bus < U32_LIMIT && 0 <= slot < U32_LIMIT && 0 <= func < U32_LIMIT
    decreases U32_LIMIT - bus, U32_LIMIT - slot, U32_LIMIT - func
  {
    match Step(skip, bus, slot, func)
    case Panic => Panic
    case Ok((b, s, f)) =>
      if b >= MAX_BUSES then Ok((b, s, f))
      else if config(AddressOf(b, s, f, CACHE_LINE_SIZE)) != 0xFF then Ok((b, s, f))
      else NextAddrFrom(config, skip, b, s, f)
  }

  /** A triple `next_addr` returns is one where its loop may stop. */
  lemma {:induction false} NextAddrStops(config: bv32 -> bv32, skip: bool, bus: int, slot: int, func: int)
    requires 0 <= bus < U32_LIMIT && 0 <= slot < U32_LIMIT && 0 <= func < U32_LIMIT
    ensures var r := NextAddrFrom(config, skip, bus, slot, func);
      r.Ok? ==>
        && 0 <= r.value.0 < U32_LIMIT && 0 <= r.value.1 < U32_LIMIT && 0 <= r.value.2 < U32_LIMIT
        && (r.value.0 >= MAX_BUSES || config(AddressOf(r.value.0, r.value.1, r.value.2, CACHE_LINE_SIZE)) != 0xFF)
    decreases U32_LIMIT - bus, U32_LIMIT - slot, U32_LIMIT - func
  {
    var st := Step(skip, bus, slot, func);
    if st.Ok? {
      var (b, s, f) := st.value;
      if b < MAX_BUSES && config(AddressOf(b, s, f, CACHE_LINE_SIZE)) == 0xFF {
        NextAddrStops(config, skip, b, s, f);
      }
    }
  }

  /** `next_addr` moves strictly forward in (bus, slot, function) order. */
  lemma {:induction false} NextAddrAdvances(config: bv32 -> bv32, skip: bool, bus: int, slot: int, func: int)
    requires 0 <= bus < U32_LIMIT && 0 <= slot < U32_LIMIT && 0 <= func < U32_LIMIT
    ensures var r := NextAddrFrom(config, skip, bus, slot, func);
      r.Ok? ==>
        (r.value.0 > bus
         || (r.value.0 == bus && r.value.1 > slot)
         || (r.value.0 == bus && r.value.1 == slot && r.value.2 > func))
    decreases U32_LIMIT - bus, U32_LIMIT - slot, U32_LIMIT - func
  {
    var st := Step(skip, bus, slot, func);
    if st.Ok? {
      var (b, s, f) := st.value;
      if b < MAX_BUSES && config(AddressOf(b, s, f, CACHE_LINE_SIZE)) == 0xFF {
        NextAddrAdvances(config, skip, b, s, f);
      }
    }
  }

  /**
   * When the first dword says to skip and every register reads 0xFF, the
   * walk from function 0 of an in-range slot runs off the end: bus 8,
   * slot 0, function 0.
   */
  lemma {:induction false} EmptyScanRunsToEnd(config: bv32 -> bv32, bus: int, slot: int)
    requires forall a :: config(a) == 0xFF
    requires 0 <= bus < MAX_BUSES && 0 <= slot < MAX_SLOTS
    ensures NextAddrFrom(config, true, bus, slot, 0) == Ok((MAX_BUSES, 0, 0))
    decreases MAX_BUSES - bus, MAX_SLOTS - slot
  {
    if slot + 1 >= MAX_SLOTS {
      if bus + 1 < MAX_BUSES {
        assert config(AddressOf(bus + 1, 0, 0, CACHE_LINE_SIZE)) == 0xFF;
        EmptyScanRunsToEnd(config, bus + 1, 0);
      }
    } else {
      assert config(AddressOf(bus, slot + 1, 0, CACHE_LINE_SIZE)) == 0xFF;
      EmptyScanRunsToEnd(config, bus, slot + 1);
    }
  }

  /**
   * Without the skip test, stepping past the last function of slot 31
   * gives slot 32 (which `SlotOverflowAliasesBus` places on another bus),
   * and the skip test at its function 0 then moves to the next bus.
   */
  lemma SlotThirtyTwoReached(bus: int)
    requires 0 <= bus < MAX_BUSES
    ensures Step(false, bus, 31, 7) == Ok((bus, 32, 0))
    ensures Step(true, bus, 32, 0) == Ok((bus + 1, 0, 0))
  {
  }

  /** The counter updates at the top of `next_addr`'s loop, one pass. */
  method Advance(skip: bool, bus0: int, slot0: int, func0: int) returns (r: Outcome<(int, int, int)>)
    requires 0 <= bus0 < U32_LIMIT && 0 <= slot0 < U32_LIMIT && 0 <= func0 < U32_LIMIT
    ensures r == Step(skip, bus0, slot0, func0)
  {
    var bus, slot, func := bus0, slot0, func0;
    if func == 0 && skip {
      if slot + 1 >= U32_LIMIT {
        return Panic;
      }
      slot := slot + 1;
      if slot >= MAX_SLOTS {
        if bus + 1 >= U32_LIMIT {
          return Panic;
        }
        slot := 0;
        bus := bus + 1;
      }
    } else {
      if func + 1 >= U32_LIMIT {
        return Panic;
      }
      func := func + 1;
      if func >= MAX_FUNCS {
        if slot + 1 >= U32_LIMIT {
          return Panic;
        }
        func := 0;
        slot := slot + 1;
      }
    }
    return Ok((bus, slot, func));
  }

  /** `PCIState`, with the configuration space it reaches through the ports. */
  class PciState {
    /** The dword the data port yields after each address written to the address port. */
    var config: bv32 -> bv32

    constructor(config: bv32 -> bv32)
      ensures this.config == config
    {
      this.config := config;
    }

    /** `config_read_32`. */
    function ConfigRead32(bus: bv32, slot: bv32, func: bv32, offset: Register): bv32
      reads this
    {
      config(PciAddress(bus, slot, func, offset))
    }

    /** `config_read_16`: the word of the dword that `offset` selects. */
    function ConfigRead16(bus: bv32, slot: bv32, func: bv32, offset: Register): (w: bv16)
      reads this
      ensures offset & 2 == 0 ==> w as bv32 == ConfigRead32(bus, slot, func, offset) & 0xFFFF
      ensures offset & 2 != 0 ==> w as bv32 == ConfigRead32(bus, slot, func, offset) >> 16
    {
      SelectWord(ConfigRead32(bus, slot, func, offset), offset)
    }

    /** `config_read_8`: the byte of that word that `offset` selects. */
    function ConfigRead8(bus: bv32, slot: bv32, func: bv32, offset: Register): (b: bv8)
      reads this
      ensures b as bv32 == (ConfigRead32(bus, slot, func, offset) >> (((offset & 3) * 8) as bv32)) & 0xFF
    {
      SelectByteOfDword(ConfigRead32(bus, slot, func, offset), offset);
      SelectByte(ConfigRead16(bus, slot, func, offset), offset)
    }

    /**
     * `config_write` of a `u16` at a register in the low half of its
     * dword: the low word of the addressed dword is replaced.
     */
    method ConfigWrite16(bus: bv32, slot: bv32, func: bv32, offset: Register, data: bv16)
      requires offset & 2 == 0
      modifies this
      ensures var a := PciAddress(bus, slot, func, offset);
        && config(a) == (old(config(a)) & 0xFFFF_0000) | data as bv32
        && forall a' :: a' != a ==> config(a') == old(config(a'))
    {
      var a := PciAddress(bus, slot, func, offset);
      var previous := config;
      var updated := (previous(a) & 0xFFFF_0000) | data as bv32;
      config := a' => if a' == a then updated else previous(a');
    }

    /**
     * `enable_interrupts`: read the command register, clear its
     * interrupt-disable bit and write it back. The dword at the command
     * register loses bit 10 and nothing else changes.
     */
    method EnableInterrupts(bus: bv32, slot: bv32, func: bv32)
      modifies this
      ensures var a := PciAddress(bus, slot, func, COMMAND);
        && config(a) == old(config(a)) & !(INTERRUPT_DISABLE as bv32)
        && forall a' :: a' != a ==> config(a') == old(config(a'))
    {
      var command := ConfigRead16(bus, slot, func, COMMAND);
      command := command & !INTERRUPT_DISABLE;
      ConfigWrite16(bus, slot, func, COMMAND, command);
    }

    /**
     * `next_addr`: read the starting triple's dword once, then step until
     * the bus reaches 8 or the dword at the new triple is not 0xFF. A
     * counter that overflows `u32` panics.
     */
    method NextAddr(bus0: int, slot0: int, func0: int) returns (r: Outcome<(int, int, int)>)
      requires 0 <= bus0 < U32_LIMIT && 0 <= slot0 < U32_LIMIT && 0 <= func0 < U32_LIMIT
      ensures r == NextAddrFrom(config, SkipsSlot(config(AddressOf(bus0, slot0, func0, CACHE_LINE_SIZE))), bus0, slot0, func0)
    {
      var lthbc := config(AddressOf(bus0, slot0, func0, CACHE_LINE_SIZE));
      var skip := SkipsSlot(lthbc);
      var bus, slot, func := bus0, slot0, func0;
      while true
        invariant 0 <= bus < U32_LIMIT && 0 <= slot < U32_LIMIT && 0 <= func < U32_LIMIT
        invariant NextAddrFrom(config, skip, bus, slot, func) == NextAddrFrom(config, skip, bus0, slot0, func0)
        decreases U32_LIMIT - bus, U32_LIMIT - slot, U32_LIMIT - func
      {
        var stepped := Advance(skip, bus, slot, func);
        if stepped.Panic? {
          return Panic;
        }
        bus, slot, func := stepped.value.0, stepped.value.1, stepped.value.2;
        if bus >= MAX_BUSES {
          return Ok((bus, slot, func));
        }
        var next := config(AddressOf(bus, slot, func, CACHE_LINE_SIZE));
        if next != 0xFF {
          return Ok((bus, slot, func));
        }
      }
    }
  }
}
