/**
 * ACPI table validation (`kernel/src/klib/acpi`): the RSDP's signature and
 * checksums (section 5.2.5.3 of the ACPI specification, 6.x) and the
 * checksum of a system description table header (section 5.2.6). The
 * standard asks that all bytes, the checksum included, sum to zero modulo
 * 256; the code instead compares the sum with the checksum byte, as the
 * lemmas below spell out.
 */
module Acpi {
  import opened Common

  type Byte = b: int | 0 <= b < 256

  /** The sum of a byte string as an integer. */
  function Sum(bytes: seq<Byte>): int
  {
    if bytes == [] then 0 else Sum(bytes[..|bytes| - 1]) + bytes[|bytes| - 1]
  }

  /** `fold(0, |acc, &x| acc.wrapping_add(x))`: the `u8` left fold. */
  function WrappingSum(bytes: seq<Byte>): (r: Byte)
  {
    if bytes == [] then 0 else (WrappingSum(bytes[..|bytes| - 1]) + bytes[|bytes| - 1]) % 256
  }

  /** `u8::wrapping_sub`. */
  function WrappingSub(a: Byte, b: Byte): (r: Byte)
    ensures (r + b) % 256 == a
  {
    (a - b) % 256
  }

  /** The wrapping fold is the sum modulo 256. */
  lemma {:induction false} WrappingSumIsSumMod(bytes: seq<Byte>)
    ensures WrappingSum(bytes) == Sum(bytes) % 256
    decreases |bytes|
  {
    if bytes != [] {
      var init := bytes[..|bytes| - 1];
      WrappingSumIsSumMod(init);
      var s := Sum(init);
      DivModUnique(s, 256, s / 256, s % 256);
      DivModUnique(s + bytes[|bytes| - 1], 256, s / 256 + (s % 256 + bytes[|bytes| - 1]) / 256,
                   (s % 256 + bytes[|bytes| - 1]) % 256);
    }
  }

  lemma {:induction false} SumConcat(a: seq<Byte>, b: seq<Byte>)
    ensures Sum(a + b) == Sum(a) + Sum(b)
    decreases |b|
  {
    if b == [] {
      assert a + b == a;
    } else {
      assert (a + b)[..|a + b| - 1] == a + b[..|b| - 1];
      SumConcat(a, b[..|b| - 1]);
    }
  }

  /** The sum depends only on the multiset of bytes. */
  lemma {:induction false} SumPermutation(a: seq<Byte>, b: seq<Byte>)
    requires multiset(a) == multiset(b)
    ensures Sum(a) == Sum(b)
    decreases |a|
  {
    if a != [] {
      var x := a[|a| - 1];
      assert x in multiset(b);
      var k :| 0 <= k < |b| && b[k] == x;
      var rest := b[..k] + b[k + 1..];
      assert b == b[..k] + [x] + b[k + 1..];
      assert a == a[..|a| - 1] + [x];
      assert multiset(a) == multiset(a[..|a| - 1]) + multiset{x};
      assert multiset(b) == multiset(b[..k]) + multiset{x} + multiset(b[k + 1..]);
      assert multiset(rest) == multiset(b[..k]) + multiset(b[k + 1..]);
      assert multiset(a[..|a| - 1]) == multiset(a) - multiset{x};
      assert multiset(rest) == multiset(b) - multiset{x};
      SumPermutation(a[..|a| - 1], rest);
      SumConcat(b[..k] + [x], b[k + 1..]);
      SumConcat(b[..k], [x]);
      SumConcat(b[..k], b[k + 1..]);
      assert Sum([x]) == x by {
        assert [x][..0] == [];
      }
    }
  }

  /** Reordering the bytes does not change the wrapping fold. */
  lemma WrappingSumPermutation(a: seq<Byte>, b: seq<Byte>)
    requires multiset(a) == multiset(b)
    ensures WrappingSum(a) == WrappingSum(b)
  {
    WrappingSumIsSumMod(a);
    WrappingSumIsSumMod(b);
    SumPermutation(a, b);
  }

  /** A little-endian unsigned integer. */
  function LittleEndian(bytes: seq<Byte>): (n: nat)
  {
    if bytes == [] then 0 else bytes[0] + 256 * LittleEndian(bytes[1..])
  }

  /*
   * RSDP
   */

  /** The packed 36-byte `Rsdp` structure. */
  const RSDP_SIZE: int := 36
  /** `offset_of!(Rsdp, length)`: the version-1 part ends here. */
  const LENGTH_OFFSET: int := 20

  /** "RSD PTR " */
  const RSDP_SIGNATURE: seq<Byte> := [0x52, 0x53, 0x44, 0x20, 0x50, 0x54, 0x52, 0x20]

  datatype Rsdp = Rsdp(bytes: seq<Byte>)
  {
    predicate Valid()
    {
      |bytes| == RSDP_SIZE
    }

    function Checksum(): Byte
      requires Valid()
    {
      bytes[8]
    }

    function Revision(): Byte
      requires Valid()
    {
      bytes[15]
    }

    function RsdtAddress(): nat
      requires Valid()
    {
      LittleEndian(bytes[16..20])
    }

    function XsdtAddress(): nat
      requires Valid()
    {
      LittleEndian(bytes[24..32])
    }

    function ExtendedChecksum(): Byte
      requires Valid()
    {
      bytes[32]
    }
  }

  datatype SdtAddr = Rsdt(rsdt: nat) | Xsdt(xsdt: nat)

  /** `validate_signature`: the first eight bytes read "RSD PTR ". */
  predicate ValidateSignature(r: Rsdp)
    requires r.Valid()
  {
    r.bytes[..8] == RSDP_SIGNATURE
  }

  /**
   * `validate_checksum`: the fold of the first 20 bytes less the checksum
   * must equal the checksum; revision 0 stops there, any other revision
   * also needs the fold of bytes 20..36 less the extended checksum to
   * equal the extended checksum.
   */
  predicate ValidateChecksum(r: Rsdp)
    requires r.Valid()
  {
    if WrappingSub(WrappingSum(r.bytes[..LENGTH_OFFSET]), r.Checksum()) != r.Checksum() then false
    else if r.Revision() == 0 then true
    else WrappingSub(WrappingSum(r.bytes[LENGTH_OFFSET..]), r.ExtendedChecksum()) == r.ExtendedChecksum()
  }

  /** `get_sdt_addr`: the RSDT address for revision 0, the XSDT address otherwise, once the checksums hold. */
  function GetSdtAddr(r: Rsdp): (a: Option<SdtAddr>)
    requires r.Valid()
    ensures a.None? <==> !ValidateChecksum(r)
  {
    if !ValidateChecksum(r) then None
    else if r.Revision() == 0 then Some(Rsdt(r.RsdtAddress()))
    else Some(Xsdt(r.XsdtAddress()))
  }

  /**
   * What the RSDP check asks, as sums: the bytes before `length` other
   * than the checksum add up to the checksum, and for revision 1 and
   * later the same holds of the remaining bytes and the extended checksum.
   */
  lemma RsdpChecksumMeaning(r: Rsdp)
    requires r.Valid()
    ensures ValidateChecksum(r) <==>
      && (Sum(r.bytes[..LENGTH_OFFSET]) - 2 * r.Checksum()) % 256 == 0
      && (r.Revision() == 0 || (Sum(r.bytes[LENGTH_OFFSET..]) - 2 * r.ExtendedChecksum()) % 256 == 0)
  {
    WrappingSumIsSumMod(r.bytes[..LENGTH_OFFSET]);
    WrappingSumIsSumMod(r.bytes[LENGTH_OFFSET..]);
    SubEqualsMeaning(Sum(r.bytes[..LENGTH_OFFSET]), r.Checksum());
    SubEqualsMeaning(Sum(r.bytes[LENGTH_OFFSET..]), r.ExtendedChecksum());
  }

  /** `(s mod 256) - c == c` in `u8` says that `s - 2c` is a multiple of 256. */
  lemma SubEqualsMeaning(s: int, c: Byte)
    ensures WrappingSub(s % 256, c) == c <==> (s - 2 * c) % 256 == 0
  {
    var q, r := s / 256, s % 256;
    var t := r - 2 * c;
    if r - c >= 0 {
      DivModUnique(r - c, 256, 0, r - c);
    } else {
      DivModUnique(r - c, 256, -1, r - c + 256);
    }
    if t == 0 {
      DivModUnique(s - 2 * c, 256, q, 0);
    } else if t == -256 {
      DivModUnique(s - 2 * c, 256, q - 1, 0);
    } else if 0 < t {
      DivModUnique(s - 2 * c, 256, q, t);
    } else if -256 < t {
      DivModUnique(s - 2 * c, 256, q - 1, t + 256);
    } else {
      DivModUnique(s - 2 * c, 256, q - 2, t + 512);
    }
  }

  /** Reordering the bytes of each part keeps the checksums' verdict, as long as the checksum fields stay put. */
  lemma RsdpChecksumPermutation(r: Rsdp, r': Rsdp)
    requires r.Valid() && r'.Valid()
    requires multiset(r.bytes[..LENGTH_OFFSET]) == multiset(r'.bytes[..LENGTH_OFFSET])
    requires multiset(r.bytes[LENGTH_OFFSET..]) == multiset(r'.bytes[LENGTH_OFFSET..])
    requires r.Checksum() == r'.Checksum() && r.ExtendedChecksum() == r'.ExtendedChecksum()
    requires r.Revision() == r'.Revision()
    ensures ValidateChecksum(r) == ValidateChecksum(r')
  {
    WrappingSumPermutation(r.bytes[..LENGTH_OFFSET], r'.bytes[..LENGTH_OFFSET]);
    WrappingSumPermutation(r.bytes[LENGTH_OFFSET..], r'.bytes[LENGTH_OFFSET..]);
  }

  /**
   * `get_sdt_addr` never looks at the signature: 36 zero bytes pass the
   * checksum and yield an RSDT address of 0.
   */
  lemma ZeroRsdpAccepted()
    ensures var r := Rsdp(seq(RSDP_SIZE, _ => 0));
      && r.Valid() && !ValidateSignature(r) && GetSdtAddr(r) == Some(Rsdt(0))
  {
    var r := Rsdp(seq(RSDP_SIZE, _ => 0));
    WrappingSumIsSumMod(r.bytes[..LENGTH_OFFSET]);
    assert r.bytes[..LENGTH_OFFSET] == seq(LENGTH_OFFSET, _ => 0);
    ZeroSum(LENGTH_OFFSET);
    assert r.Checksum() == 0 && r.Revision() == 0;
    assert ValidateChecksum(r);
    assert r.bytes[16..20] == [0, 0, 0, 0];
    assert LittleEndian([0, 0, 0, 0]) == 0;
    assert r.bytes[0] != RSDP_SIGNATURE[0];
  }

  lemma {:induction false} ZeroSum(n: nat)
    ensures Sum(seq(n, _ => 0)) == 0
  {
    if n > 0 {
      assert seq(n, _ => 0)[..n - 1] == seq(n - 1, _ => 0);
      ZeroSum(n - 1);
    }
  }

  /*
   * System description table header
   */

  /** The size of `SdtHeader`. */
  const SDT_HEADER_SIZE: int := 36

  /** The header's `length` field: the whole table's size. */
  function SdtLength(table: seq<Byte>): nat
    requires |table| >= SDT_HEADER_SIZE
  {
    LittleEndian(table[4..8])
  }

  /**
   * `SdtHeader::validate_checksum` over the memory from the header on:
   * the fold of the first `length` bytes, less the checksum byte, is zero.
   * Reading past the memory given is out of the model, hence the bound.
   */
  predicate ValidateSdtChecksum(table: seq<Byte>)
    requires |table| >= SDT_HEADER_SIZE && SdtLength(table) <= |table|
  {
    WrappingSub(WrappingSum(table[..SdtLength(table)]), table[9]) == 0
  }

  /**
   * As sums: once the checksum byte lies within `length`, the check holds
   * iff the other bytes of the table add up to 0 modulo 256 (the
   * standard's rule is that all bytes do). A shorter `length` leaves the
   * checksum byte out of the fold, and the fold must then equal it.
   */
  lemma SdtChecksumMeaning(table: seq<Byte>)
    requires |table| >= SDT_HEADER_SIZE && SdtLength(table) <= |table|
    ensures SdtLength(table) > 9 ==>
      (ValidateSdtChecksum(table) <==> Sum(table[..9] + table[10..SdtLength(table)]) % 256 == 0)
    ensures SdtLength(table) <= 9 ==>
      (ValidateSdtChecksum(table) <==> Sum(table[..SdtLength(table)]) % 256 == table[9])
  {
    var n := SdtLength(table);
    WrappingSumIsSumMod(table[..n]);
    SubZeroMeaning(Sum(table[..n]), table[9]);
    if n > 9 {
      assert table[..n] == table[..9] + [table[9]] + table[10..n];
      SumConcat(table[..9] + [table[9]], table[10..n]);
      SumConcat(table[..9], [table[9]]);
      SumConcat(table[..9], table[10..n]);
      assert Sum([table[9]]) == table[9] by {
        assert [table[9]][..0] == [];
      }
    }
  }

  /** `(s mod 256) - c == 0` in `u8` says that `s - c` is a multiple of 256. */
  lemma SubZeroMeaning(s: int, c: Byte)
    ensures WrappingSub(s % 256, c) == 0 <==> (s - c) % 256 == 0
    ensures WrappingSub(s % 256, c) == 0 <==> s % 256 == c
  {
    var q, r := s / 256, s % 256;
    if r >= c {
      DivModUnique(r - c, 256, 0, r - c);
      DivModUnique(s - c, 256, q, r - c);
    } else {
      DivModUnique(r - c, 256, -1, r - c + 256);
      DivModUnique(s - c, 256, q - 1, r - c + 256);
    }
  }

  /**
   * Against the standard's rule: of the tables whose bytes all sum to 0
   * modulo 256, the check accepts exactly those whose checksum byte is 0.
   */
  lemma SdtStandardAgreement(table: seq<Byte>)
    requires |table| >= SDT_HEADER_SIZE && 9 < SdtLength(table) <= |table|
    requires Sum(table[..SdtLength(table)]) % 256 == 0
    ensures ValidateSdtChecksum(table) <==> table[9] == 0
  {
    var n := SdtLength(table);
    WrappingSumIsSumMod(table[..n]);
    SubZeroMeaning(Sum(table[..n]), table[9]);
  }

  /**
   * Against the standard's rule for the RSDP's first 20 bytes: when they
   * sum to 0 modulo 256, the first check passes only for a checksum of 0
   * or 128.
   */
  lemma RsdpStandardAgreement(r: Rsdp)
    requires r.Valid() && r.Revision() == 0
    requires Sum(r.bytes[..LENGTH_OFFSET]) % 256 == 0
    ensures ValidateChecksum(r) <==> r.Checksum() == 0 || r.Checksum() == 128
  {
    var s: int, c: int := Sum(r.bytes[..LENGTH_OFFSET]), r.Checksum();
    RsdpChecksumMeaning(r);
    DivModUnique(s, 256, s / 256, 0);
    if c == 0 {
      DivModUnique(s - 2 * c, 256, s / 256, 0);
    } else if c == 128 {
      DivModUnique(s - 2 * c, 256, s / 256 - 1, 0);
    } else if c < 128 {
      DivModUnique(s - 2 * c, 256, s / 256 - 1, 256 - 2 * c);
    } else {
      DivModUnique(s - 2 * c, 256, s / 256 - 2, 512 - 2 * c);
    }
  }

  /**
   * The verdict depends on the table's bytes only through their multiset,
   * given the same `length` field and checksum byte.
   */
  lemma SdtChecksumPermutation(table: seq<Byte>, table': seq<Byte>)
    requires |table| >= SDT_HEADER_SIZE && SdtLength(table) <= |table|
    requires |table'| >= SDT_HEADER_SIZE && SdtLength(table') == SdtLength(table) <= |table'|
    requires table'[9] == table[9]
    requires multiset(table[..SdtLength(table)]) == multiset(table'[..SdtLength(table)])
    ensures ValidateSdtChecksum(table) == ValidateSdtChecksum(table')
  {
    WrappingSumPermutation(table[..SdtLength(table)], table'[..SdtLength(table)]);
  }
}
