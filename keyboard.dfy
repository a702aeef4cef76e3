/**
 * PS/2 scan-code set 1 decoding of the kernel keyboard driver: the
 * `TryFrom<u8>` conversions for `Key`, `SpecialKey` and `ExtendedKeyCode`,
 * `KEY_TABLE`, `KeyCode::from_byte` / `from_extended_byte`, the
 * `LEDState` bit setters and the command byte of `Command`. A fieldless
 * enum whose conversion is a `transmute` of the byte is modelled by its
 * discriminant.
 */
module Keyboard {
  import opened Common

  /** Added to a key's scan code on release. */
  const RELEASE_GAP: int := 0x80

  predicate IsByte(b: int)
  {
    0 <= b < 256
  }

  /*
   * Keys
   */

  /** The scan codes `Key::try_from` accepts. */
  predicate IsKeyCode(b: int)
  {
    (0x01 <= b <= 0x53) || b == 0x55 || (0x57 <= b <= 0x58)
  }

  /** A `Key`, by its discriminant. `NextIsExtended` (0xE0) is a variant `try_from` never yields. */
  type Key = k: int | IsKeyCode(k) || k == NEXT_IS_EXTENDED witness 0x01

  const NEXT_IS_EXTENDED: int := 0xE0

  /** `TryFrom<u8> for Key`. */
  function KeyFromByte(b: int): (r: Option<Key>)
    requires IsByte(b)
    ensures r.Some? <==> IsKeyCode(b)
    ensures r.Some? ==> r.value == b
  {
    if IsKeyCode(b) then Some(b) else None
  }

  /** The press codes of the special keys. */
  predicate IsSpecialPress(b: int)
  {
    || (0x01 <= b <= 0x0B) || (0x0E <= b <= 0x0F) || (0x1C <= b <= 0x1D)
    || b == 0x2A || b == 0x36 || b == 0x38
    || (0x3A <= b <= 0x46) || (0x57 <= b <= 0x58)
  }

  /** The release codes of the special keys, as the second match arm lists them. */
  predicate IsSpecialRelease(b: int)
  {
    || (0x81 <= b <= 0x8B) || (0x8E <= b <= 0x8F) || (0x9C <= b <= 0x9D)
    || b == 0xAA || b == 0xB6 || b == 0xB8
    || (0xBA <= b <= 0xC6) || (0xD7 <= b <= 0xD8)
  }

  /** A `SpecialKey`, by its discriminant (the press code). */
  type SpecialKey = k: int | IsSpecialPress(k) witness 0x01

  /** `TryFrom<u8> for SpecialKey`: a press code maps to itself, a release code to the code less 0x80. */
  function SpecialKeyFromByte(b: int): (r: Option<SpecialKey>)
    requires IsByte(b)
  {
    if IsSpecialPress(b) then Some(b)
    else if IsSpecialRelease(b) then
      assert IsSpecialPress(b - RELEASE_GAP);
      Some(b - RELEASE_GAP)
    else None
  }

  /** The release codes are exactly the press codes plus 0x80. */
  lemma ReleaseIsPressPlusGap(b: int)
    requires IsByte(b)
    ensures IsSpecialRelease(b) <==> b >= RELEASE_GAP && IsSpecialPress(b - RELEASE_GAP)
  {
  }

  /**
   * `SpecialKey::try_from` accepts a byte iff it is a press code or a
   * press code plus 0x80, and a release code names the same key as the
   * press code.
   */
  lemma SpecialKeyReleaseMatchesPress(b: int)
    requires IsByte(b)
    ensures SpecialKeyFromByte(b).Some? <==> IsSpecialPress(b) || (b >= RELEASE_GAP && IsSpecialPress(b - RELEASE_GAP))
    ensures b >= RELEASE_GAP ==> SpecialKeyFromByte(b) == SpecialKeyFromByte(b - RELEASE_GAP)
  {
    ReleaseIsPressPlusGap(b);
  }

  /** `TryFrom<Key> for SpecialKey`: every special key is a key, and converting it back gives it unchanged. */
  lemma SpecialKeysAreKeys(k: Key)
    ensures IsSpecialPress(k) ==> IsKeyCode(k) && SpecialKeyFromByte(k) == Some(k)
    ensures !IsKeyCode(k) ==> SpecialKeyFromByte(k).None?
  {
  }

  /** The scan codes `ExtendedKeyCode::try_from` accepts. */
  const EXTENDED_CODES: set<int> := {
    0x10, 0x19, 0x1C, 0x1D, 0x20, 0x21, 0x22, 0x24, 0x2E, 0x30, 0x32, 0x35,
    0x38, 0x48, 0x49, 0x4B, 0x4D, 0x4F, 0x50, 0x51, 0x52, 0x53, 0x5C, 0x5D,
    0x5E, 0x5F, 0x63, 0x65, 0x66, 0x67, 0x68, 0x69, 0x6A, 0x6B, 0x6C, 0x6D
  }

  /** An `ExtendedKeyCode`, by its discriminant. */
  type ExtendedKeyCode = k: int | k in EXTENDED_CODES witness 0x10

  /** `TryFrom<u8> for ExtendedKeyCode`. */
  function ExtendedKeyFromByte(b: int): (r: Option<ExtendedKeyCode>)
    requires IsByte(b)
    ensures r.Some? <==> b in EXTENDED_CODES
    ensures r.Some? ==> r.value == b
  {
    if b in EXTENDED_CODES then Some(b) else None
  }

  /*
   * Key codes
   */

  /** The first four rows of `KEY_TABLE`; the other twelve rows are all zero. */
  const KEY_TABLE_ROWS: seq<char> := [
    '\0', '\0', '1', '2', '3', '4', '5', '6', '7', '8', '9', '0', '-', '=', '\0', '\0',
    'q', 'w', 'e', 'r', 't', 'y', 'u', 'i', 'o', 'p', '[', ']', '\0', '\0', 'a', 's',
    'd', 'f', 'g', 'h', 'j', 'k', 'l', ';', '\'', '`', '\0', '\\', 'z', 'x', 'c', 'v',
    'b', 'n', 'm', ',', '.', '/', '\0', '\0', '\0', ' ', '\0', '\0', '\0', '\0', '\0', '\0'
  ]

  /** A lookup in the 256-entry `KEY_TABLE`: the ASCII character of a scan code, or NUL. */
  function KeyTable(b: int): char
    requires IsByte(b)
  {
    if b < |KEY_TABLE_ROWS| then KEY_TABLE_ROWS[b] else '\0'
  }

  datatype KeyCode =
    | AsciiUp(ch: char)
    | AsciiDown(ch: char)
    | SpecialUp(special: SpecialKey)
    | SpecialDown(special: SpecialKey)
    | ExtendedDown(extended: ExtendedKeyCode)
    | ExtendedUp(extended: ExtendedKeyCode)
  {
    predicate IsRelease()
    {
      AsciiUp? || SpecialUp? || ExtendedUp?
    }
  }

  /**
   * `KeyCode::from_byte`: special keys first, then `KEY_TABLE`; a byte
   * above 0x80 is a release.
   */
  function FromByte(b: int): (r: Option<KeyCode>)
    requires IsByte(b)
  {
    match SpecialKeyFromByte(b)
    case Some(k) => if b > RELEASE_GAP then Some(SpecialUp(k)) else Some(SpecialDown(k))
    case None =>
      if KeyTable(b) != '\0' then
        if b > RELEASE_GAP then Some(AsciiUp(KeyTable(b))) else Some(AsciiDown(KeyTable(b)))
      else None
  }

  /** `KEY_TABLE` has a character only below 0x3A. */
  lemma KeyTableZeroAbove(b: int)
    requires 0x3A <= b < 256
    ensures KeyTable(b) == '\0'
  {
    if b < |KEY_TABLE_ROWS| {
      assert KeyTable(b) == KEY_TABLE_ROWS[b];
    }
  }

  /**
   * The digit row: its codes are special keys, so `from_byte` answers
   * `SpecialDown` and never reads the digits `KEY_TABLE` holds for them.
   */
  lemma DigitsAreSpecial(b: int)
    requires 0x02 <= b <= 0x0B
    ensures FromByte(b) == Some(SpecialDown(b))
  {
  }

  /**
   * `from_byte` reports a release exactly for a recognised byte above
   * 0x80 (0x80 itself would count as a press), it never produces
   * `AsciiUp`, and it answers `None` exactly for a byte that is neither a
   * special key nor in `KEY_TABLE`.
   */
  lemma FromByteShape(b: int)
    requires IsByte(b)
    ensures FromByte(b).Some? ==> (FromByte(b).value.IsRelease() <==> b > RELEASE_GAP)
    ensures FromByte(b).None? || !FromByte(b).value.AsciiUp?
    ensures FromByte(b).None? <==> SpecialKeyFromByte(b).None? && KeyTable(b) == '\0'
  {
    if b > RELEASE_GAP {
      KeyTableZeroAbove(b);
    }
  }

  /** `KeyCode::from_extended_byte`: a byte above 0x8F would be a release. */
  function FromExtendedByte(b: int): (r: Option<KeyCode>)
    requires IsByte(b)
  {
    match ExtendedKeyFromByte(b)
    case Some(k) => if b > 0x8F then Some(ExtendedUp(k)) else Some(ExtendedDown(k))
    case None => None
  }

  /**
   * `from_extended_byte` recognises exactly the extended codes, and since
   * none of them is above 0x8F it only ever yields `ExtendedDown`.
   */
  lemma FromExtendedByteOnlyPresses(b: int)
    requires IsByte(b)
    ensures FromExtendedByte(b).Some? <==> b in EXTENDED_CODES
    ensures FromExtendedByte(b).Some? ==> FromExtendedByte(b) == Some(ExtendedDown(b))
  {
  }

  /*
   * Commands
   */

  datatype ScanCodeSet = GetSet | One | Two | Three

  datatype Command =
    | SetLeds(leds: bv8)
    | Echo
    | GetSetScanCodeSet(codeSet: ScanCodeSet)
    | IdentifyKeyboard
    | Enable
    | Disable
    | SetDefault
    | ResendLastByte
    | ResetAndSelfTest
  {
    /** The command with its payload dropped. */
    function Kind(): Command
    {
      match this
      case SetLeds(_) => SetLeds(0)
      case GetSetScanCodeSet(_) => GetSetScanCodeSet(GetSet)
      case _ => this
    }
  }

  /** `From<Command> for u8`: the enum's discriminant. */
  function CommandByte(c: Command): (b: int)
    ensures 0xED <= b <= 0xFF
  {
    match c
    case SetLeds(_) => 0xED
    case Echo => 0xEE
    case GetSetScanCodeSet(_) => 0xF0
    case IdentifyKeyboard => 0xF2
    case Enable => 0xF4
    case Disable => 0xF5
    case SetDefault => 0xF6
    case ResendLastByte => 0xFE
    case ResetAndSelfTest => 0xFF
  }

  /** Two commands send the same command byte iff they are the same kind of command. */
  lemma CommandByteIdentifiesKind(a: Command, b: Command)
    ensures CommandByte(a) == CommandByte(b) <==> a.Kind() == b.Kind()
  {
  }

  /*
   * Keyboard LEDs
   */

  const SCROLL_LOCK: bv8 := 0x01
  const NUM_LOCK: bv8 := 0x02
  const CAPS_LOCK: bv8 := 0x04

  /** `LEDState`: the LED byte sent with `SetLEDs`. */
  class LedState {
    var bits: bv8

    /** `LEDState::new()`: all LEDs off. */
    constructor()
      ensures bits == 0
    {
      bits := 0;
    }

    /** `enable_scroll_lock`: bit 0 set, every other bit kept; a no-op when already set. */
    method EnableScrollLock()
      modifies this
      ensures bits & SCROLL_LOCK == SCROLL_LOCK
      ensures bits & !SCROLL_LOCK == old(bits) & !SCROLL_LOCK
      ensures old(bits) & SCROLL_LOCK == SCROLL_LOCK ==> bits == old(bits)
    {
      bits := bits | SCROLL_LOCK;
    }

    /** `enable_num_lock`: bit 1 set, every other bit kept; a no-op when already set. */
    method EnableNumLock()
      modifies this
      ensures bits & NUM_LOCK == NUM_LOCK
      ensures bits & !NUM_LOCK == old(bits) & !NUM_LOCK
      ensures old(bits) & NUM_LOCK == NUM_LOCK ==> bits == old(bits)
    {
      bits := bits | NUM_LOCK;
    }

    /** `enable_caps_lock`: bit 2 set, every other bit kept; a no-op when already set. */
    method EnableCapsLock()
      modifies this
      ensures bits & CAPS_LOCK == CAPS_LOCK
      ensures bits & !CAPS_LOCK == old(bits) & !CAPS_LOCK
      ensures old(bits) & CAPS_LOCK == CAPS_LOCK ==> bits == old(bits)
    {
      bits := bits | CAPS_LOCK;
    }
  }
}
