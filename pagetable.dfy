/**
 * Page-table entries and tables for 4-level paging (section 4.5 of the
 * Intel SDM, Volume 3A): an entry is a raw 64-bit word whose bits 0..8 are
 * the flags below and whose bits 12..51 hold the physical address of the
 * next level or of the page.
 */
module PageTables {
  /** `PTE_COUNT`: 4096 bytes per table over 8 bytes per entry. */
  const PTE_COUNT: int := 4096 / 8

  /** The physical-address field of an entry, bits 12..51. */
  const ADDR_MASK: bv64 := 0x000f_ffff_ffff_f000

  /** `Flag`, by the bit each one occupies. */
  datatype Flag =
    | Present | Writable | UserAccessible | WriteThrough | NoCache
    | Accessed | Dirty | HugePage | Global

  /** `flag as u64`: a single bit among bits 0..8, outside the address field. */
  function FlagBit(f: Flag): (b: bv64)
    ensures b != 0 && b & (b - 1) == 0
    ensures b & 0x1FF == b && b & ADDR_MASK == 0
  {
    match f
    case Present => 0x1
    case Writable => 0x2
    case UserAccessible => 0x4
    case WriteThrough => 0x8
    case NoCache => 0x10
    case Accessed => 0x20
    case Dirty => 0x40
    case HugePage => 0x80
    case Global => 0x100
  }

  /** OR-ing in a nonzero mask sets it and keeps every other bit. */
  lemma SetMask(raw: bv64, b: bv64)
    requires b != 0
    ensures (raw | b) & b != 0 && (raw | b) & !b == raw & !b
  {
  }

  /** AND-ing in a mask's complement clears it and keeps every other bit. */
  lemma ClearMask(raw: bv64, b: bv64)
    ensures (raw & !b) & b == 0 && (raw & !b) & !b == raw & !b
  {
  }

  /** Different flags occupy different bits. */
  lemma FlagBitsDistinct(f: Flag, g: Flag)
    requires f != g
    ensures FlagBit(f) & FlagBit(g) == 0
  {
  }

  /** `get_flag`. */
  predicate HasFlag(raw: bv64, f: Flag)
  {
    raw & FlagBit(f) != 0
  }

  /** The word after `set_flag`. */
  function WithFlag(raw: bv64, f: Flag): (raw': bv64)
    ensures HasFlag(raw', f)
    ensures raw' & !FlagBit(f) == raw & !FlagBit(f)
  {
    SetMask(raw, FlagBit(f));
    raw | FlagBit(f)
  }

  /** The word after `clear_flag`. */
  function WithoutFlag(raw: bv64, f: Flag): (raw': bv64)
    ensures !HasFlag(raw', f)
    ensures raw' & !FlagBit(f) == raw & !FlagBit(f)
  {
    ClearMask(raw, FlagBit(f));
    raw & !FlagBit(f)
  }

  /** `addr`: the physical-address field. */
  function Addr(raw: bv64): (a: bv64)
    ensures a & !ADDR_MASK == 0
    ensures a & 0xFFF == 0
  {
    raw & ADDR_MASK
  }

  /** Setting or clearing a flag never changes another flag. */
  lemma OtherFlagsKept(raw: bv64, f: Flag, g: Flag)
    requires f != g
    ensures HasFlag(WithFlag(raw, f), g) == HasFlag(raw, g)
    ensures HasFlag(WithoutFlag(raw, f), g) == HasFlag(raw, g)
  {
    FlagBitsDistinct(f, g);
  }

  /** Setting or clearing a flag never changes the address. */
  lemma AddrIgnoresFlags(raw: bv64, f: Flag)
    ensures Addr(WithFlag(raw, f)) == Addr(raw)
    ensures Addr(WithoutFlag(raw, f)) == Addr(raw)
  {
  }

  /** Clearing undoes setting on a word that did not have the flag. */
  lemma ClearUndoesSet(raw: bv64, f: Flag)
    requires !HasFlag(raw, f)
    ensures WithoutFlag(WithFlag(raw, f), f) == raw
  {
  }

  /** `PageTableEntry`. */
  class PageTableEntry {
    var raw: bv64

    /** `new`: all bits clear. */
    constructor()
      ensures raw == 0
    {
      raw := 0;
    }

    /** `zero_out`. */
    method ZeroOut()
      modifies this
      ensures raw == 0
    {
      raw := 0;
    }

    /** `get_flag`. */
    predicate GetFlag(f: Flag)
      reads this
    {
      HasFlag(raw, f)
    }

    /** `set_flag`: the flag is set and no other bit changes. */
    method SetFlag(f: Flag)
      modifies this
      ensures raw == WithFlag(old(raw), f)
      ensures GetFlag(f) && Address() == old(Address())
    {
      AddrIgnoresFlags(raw, f);
      raw := raw | FlagBit(f);
    }

    /** `clear_flag`: the flag is clear and no other bit changes. */
    method ClearFlag(f: Flag)
      modifies this
      ensures raw == WithoutFlag(old(raw), f)
      ensures !GetFlag(f) && Address() == old(Address())
    {
      AddrIgnoresFlags(raw, f);
      raw := raw & !FlagBit(f);
    }

    /** `addr`. */
    function Address(): bv64
      reads this
    {
      Addr(raw)
    }
  }

  /** `PageTable`: 512 entries, stored as their raw words. */
  class PageTable {
    const entries: array<bv64>

    ghost predicate Valid()
      reads this
    {
      entries.Length == PTE_COUNT
    }

    /** `new`: every entry is zero. */
    constructor()
      ensures Valid() && fresh(entries)
      ensures forall i :: 0 <= i < entries.Length ==> entries[i] == 0
    {
      entries := new bv64[PTE_COUNT](_ => 0);
    }

    /** `zero_out`: zero each entry in turn. */
    method ZeroOut()
      requires Valid()
      modifies entries
      ensures forall i :: 0 <= i < entries.Length ==> entries[i] == 0
    {
      var i := 0;
      while i < entries.Length
        invariant 0 <= i <= entries.Length
        invariant forall j :: 0 <= j < i ==> entries[j] == 0
      {
        entries[i] := 0;
        i := i + 1;
      }
    }
  }
}
