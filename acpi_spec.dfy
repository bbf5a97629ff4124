/**
 * The System Description Table checks and the RSDT scan of
 * firmware/acpi/acpi.c as functions of memory. A table starts with the
 * 36-byte header of section 5.2.6 of the ACPI Specification (signature,
 * then the 32-bit little-endian length at offset 4); the RSDT of section
 * 5.2.7 follows it with 32-bit physical addresses of the other tables.
 */
module AcpiSpec {
  import opened Machine
  import opened Wrappers

  const HEADER_SIZE: int := 36

  /** Width of one entry of rsdt_structure_t (uint32_t entries[]). */
  const RSDT_ENTRY_SIZE: int := 4

  /** The header's length field: the whole table's size in bytes. */
  function Length(mem: Memory, a: int): (n: nat)
    ensures n < U32_LIMIT
  {
    LeBound(Load(mem, a + 4, 4));
    FromLe(Load(mem, a + 4, 4))
  }

  lemma {:induction false} LeBound(b: seq<u8>)
    ensures FromLe(b) < Pow256(|b|)
    ensures |b| == 4 ==> Pow256(|b|) == U32_LIMIT
  {
    if b != [] {
      LeBound(b[1..]);
    }
    if |b| == 4 {
      Pow256Widths();
    }
  }

  /** The sum of the bytes. */
  function SumBytes(b: seq<u8>): nat
  {
    if b == [] then 0 else SumBytes(b[..|b| - 1]) + b[|b| - 1]
  }

  /** The table's bytes add up to 0 modulo 256, the checksum byte included. */
  predicate ChecksumOk(mem: Memory, a: int)
  {
    SumBytes(Load(mem, a, Length(mem, a))) % 256 == 0
  }

  /** acpi_check_sdt_header: 0 when the four signature bytes match and the checksum verifies, 1 otherwise. */
  function CheckHeader(mem: Memory, a: int, sig: seq<u8>): (r: int)
    ensures r == 0 || r == 1
    ensures r == 0 <==> Load(mem, a, 4) == sig && ChecksumOk(mem, a)
  {
    if Load(mem, a, 4) == sig && ChecksumOk(mem, a) then 0 else 1
  }

  /** RSDT entry i: the 32-bit physical address after the header. */
  function Entry(mem: Memory, rsdt: int, i: nat): nat
  {
    FromLe(Load(mem, rsdt + HEADER_SIZE + RSDT_ENTRY_SIZE * i, 4))
  }

  /** The entry count as acpi_find_sdt_table computes it: in size_t arithmetic, divided by 8 when an XSDT exists. */
  function EntryCountAsWritten(mem: Memory, rsdt: int, xsdt: bool): (n: nat)
    ensures Length(mem, rsdt) >= HEADER_SIZE ==> n == (Length(mem, rsdt) - HEADER_SIZE) / (if xsdt then 8 else 4)
  {
    Wrap64(Length(mem, rsdt) - HEADER_SIZE) / (if xsdt then 8 else 4)
  }

  /** The entry count by the width of the entries read: 4 bytes each. */
  function EntryCount(mem: Memory, rsdt: int): (n: nat)
    ensures Length(mem, rsdt) >= HEADER_SIZE ==> n == (Length(mem, rsdt) - HEADER_SIZE) / RSDT_ENTRY_SIZE
  {
    Wrap64(Length(mem, rsdt) - HEADER_SIZE) / RSDT_ENTRY_SIZE
  }

  /** The first of entries from..count-1 whose table passes the check, as the index of the entry. */
  function FindFrom(mem: Memory, rsdt: int, sig: seq<u8>, count: nat, from: nat): (i: Option<nat>)
    decreases count - from
    ensures i.Some? ==> from <= i.value < count && CheckHeader(mem, Entry(mem, rsdt, i.value), sig) == 0 &&
                        forall j :: from <= j < i.value ==> CheckHeader(mem, Entry(mem, rsdt, j), sig) != 0
    ensures i.None? <==> forall j :: from <= j < count ==> CheckHeader(mem, Entry(mem, rsdt, j), sig) != 0
  {
    if from >= count then None
    else if CheckHeader(mem, Entry(mem, rsdt, from), sig) == 0 then Some(from)
    else FindFrom(mem, rsdt, sig, count, from + 1)
  }

  /** acpi_find_sdt_table as written: the table checked at its physical address, returned through the higher-half offset. */
  function FindAsWritten(mem: Memory, rsdt: int, sig: seq<u8>, xsdt: bool, hhdm: u64): Option<u64>
  {
    var i := FindFrom(mem, rsdt, sig, EntryCountAsWritten(mem, rsdt, xsdt), 0);
    if i.None? then None else Some(Wrap64(Entry(mem, rsdt, i.value) + hhdm))
  }

  /** acpi_find_sdt_table scanning every 4-byte entry of the RSDT. */
  function Find(mem: Memory, rsdt: int, sig: seq<u8>, hhdm: u64): Option<u64>
  {
    var i := FindFrom(mem, rsdt, sig, EntryCount(mem, rsdt), 0);
    if i.None? then None else Some(Wrap64(Entry(mem, rsdt, i.value) + hhdm))
  }

  // ---------------------------------------------------------------------
  // The checksum loop as written: `for (uint8_t i = 0; i < length; i++)`

  /** The uint8_t counter after k increments. */
  function CounterAfter(k: nat): u8
  {
    Wrap8(k)
  }

  /** The uint8_t sum after k iterations: byte ptr[i] added with 8-bit wrap-around each time. */
  function SumAfter(mem: Memory, a: int, k: nat): u8
  {
    if k == 0 then 0 else Wrap8(SumAfter(mem, a, k - 1) + mem(a + CounterAfter(k - 1)))
  }

  /** With a length of 256 or more the counter wraps before reaching it, so the loop condition holds after every iteration. */
  lemma ChecksumLoopNeverExits(mem: Memory, a: int, k: nat)
    requires Length(mem, a) >= 256
    ensures CounterAfter(k) < Length(mem, a)
  {
  }

  /** With a shorter table the loop runs exactly length times and its sum tells the same as ChecksumOk. */
  lemma ChecksumLoopShortTable(mem: Memory, a: int)
    requires Length(mem, a) < 256
    ensures forall k :: 0 <= k < Length(mem, a) ==> CounterAfter(k) < Length(mem, a)
    ensures CounterAfter(Length(mem, a)) == Length(mem, a)
    ensures (SumAfter(mem, a, Length(mem, a)) == 0) == ChecksumOk(mem, a)
  {
    SumAfterPrefix(mem, a, Length(mem, a));
  }

  lemma {:induction false} SumAfterPrefix(mem: Memory, a: int, k: nat)
    requires k < 256
    ensures SumAfter(mem, a, k) == SumBytes(Load(mem, a, k)) % 256
  {
    if k > 0 {
      SumAfterPrefix(mem, a, k - 1);
      var b := Load(mem, a, k);
      assert b[..k - 1] == Load(mem, a, k - 1);
      assert SumBytes(b) == SumBytes(Load(mem, a, k - 1)) + mem(a + (k - 1));
      ModAdd(SumBytes(Load(mem, a, k - 1)), mem(a + (k - 1)));
    }
  }

  lemma ModAdd(x: nat, y: nat)
    ensures (x % 256 + y) % 256 == (x + y) % 256
  {
    assert x == (x / 256) * 256 + x % 256;
  }

  // ---------------------------------------------------------------------
  // Properties

  /** The check passes only for the wanted signature and a zero byte sum; a wrong signature fails whatever the checksum. */
  lemma CheckHeaderSignature(mem: Memory, a: int, sig: seq<u8>)
    ensures Load(mem, a, 4) != sig ==> CheckHeader(mem, a, sig) == 1
    ensures Load(mem, a, 4) == sig ==> (CheckHeader(mem, a, sig) == 0 <==> SumBytes(Load(mem, a, Length(mem, a))) % 256 == 0)
  {
  }

  /**
   * The scan returns, through the higher-half offset, the first entry in
   * RSDT order whose table passes the check, and NULL exactly when none
   * does.
   */
  lemma FindFirst(mem: Memory, rsdt: int, sig: seq<u8>, hhdm: u64)
    ensures Find(mem, rsdt, sig, hhdm).None? <==>
      forall j :: 0 <= j < EntryCount(mem, rsdt) ==> CheckHeader(mem, Entry(mem, rsdt, j), sig) != 0
    ensures Find(mem, rsdt, sig, hhdm).Some? ==>
      exists i :: 0 <= i < EntryCount(mem, rsdt) && CheckHeader(mem, Entry(mem, rsdt, i), sig) == 0 &&
        Find(mem, rsdt, sig, hhdm) == Some(Wrap64(Entry(mem, rsdt, i) + hhdm)) &&
        forall j :: 0 <= j < i ==> CheckHeader(mem, Entry(mem, rsdt, j), sig) != 0
  {
    var i := FindFrom(mem, rsdt, sig, EntryCount(mem, rsdt), 0);
    if i.Some? {
      assert CheckHeader(mem, Entry(mem, rsdt, i.value), sig) == 0;
    }
  }

  /** Without an XSDT the two counts agree; with one, only the first half of the RSDT's entries are scanned. */
  lemma EntryCountHalved(mem: Memory, rsdt: int)
    requires Length(mem, rsdt) >= HEADER_SIZE
    ensures EntryCountAsWritten(mem, rsdt, false) == EntryCount(mem, rsdt)
    ensures EntryCountAsWritten(mem, rsdt, true) == EntryCount(mem, rsdt) / 2
  {
    var d := Length(mem, rsdt) - HEADER_SIZE;
    assert d / 8 == (d / 4) / 2;
  }

  // ---------------------------------------------------------------------
  // An RSDT whose MADT is its second entry

  /** "APIC". */
  const APIC: seq<u8> := [65, 80, 73, 67]

  /**
   * Memory with an RSDT of two entries at 0x1000 (length 44), the first
   * pointing to zeroed memory at 0x2000 and the second to a 36-byte MADT
   * header at 0x3000 whose checksum byte 191 brings the sum to 512.
   */
  function TwoEntryRsdt(): Memory
  {
    p => if p == 0x1004 then 44
         else if p == 0x1025 then 0x20 else if p == 0x1029 then 0x30
         else if p == 0x3000 then 65 else if p == 0x3001 then 80 else if p == 0x3002 then 73 else if p == 0x3003 then 67
         else if p == 0x3004 then 36 else if p == 0x3009 then 191
         else 0
  }

  lemma TwoEntryLayout()
    ensures var mem := TwoEntryRsdt();
      Length(mem, 0x1000) == 44 && Entry(mem, 0x1000, 0) == 0x2000 && Entry(mem, 0x1000, 1) == 0x3000
  {
    var mem := TwoEntryRsdt();
    assert Load(mem, 0x1004, 4) == [44, 0, 0, 0];
    assert Load(mem, 0x1024, 4) == [0, 0x20, 0, 0];
    assert FromLe([0, 0x20, 0, 0]) == 0x2000;
    assert Load(mem, 0x1028, 4) == [0, 0x30, 0, 0];
    assert FromLe([0, 0x30, 0, 0]) == 0x3000;
  }

  lemma TwoEntryTables()
    ensures var mem := TwoEntryRsdt();
      CheckHeader(mem, 0x2000, APIC) == 1 && CheckHeader(mem, 0x3000, APIC) == 0
  {
    var mem := TwoEntryRsdt();
    assert Load(mem, 0x2000, 4) == [0, 0, 0, 0];
    assert Load(mem, 0x3000, 4) == APIC;
    assert Load(mem, 0x3004, 4) == [36, 0, 0, 0];
    TwoEntryMadtSum();
  }

  lemma TwoEntryMadtSum()
    ensures SumBytes(Load(TwoEntryRsdt(), 0x3000, 36)) == 512
  {
    var b := Load(TwoEntryRsdt(), 0x3000, 36);
    assert b == [65, 80, 73, 67, 36, 0, 0, 0, 0, 191] + seq(26, _ => 0);
    SumZeros(b, 10);
    SumTen(b);
  }

  lemma SumTen(b: seq<u8>)
    requires |b| >= 10 && b[..10] == [65, 80, 73, 67, 36, 0, 0, 0, 0, 191]
    ensures SumBytes(b[..10]) == 512
  {
    assert b[..0] == [];
    SumStep(b, 0); SumStep(b, 1); SumStep(b, 2); SumStep(b, 3); SumStep(b, 4);
    SumStep(b, 5); SumStep(b, 6); SumStep(b, 7); SumStep(b, 8); SumStep(b, 9);
  }

  /** One more byte of a prefix adds its value. */
  lemma SumStep(b: seq<u8>, k: nat)
    requires k < |b|
    ensures SumBytes(b[..k + 1]) == SumBytes(b[..k]) + b[k]
  {
    assert b[..k + 1][..k] == b[..k];
  }

  /** Trailing zero bytes add nothing. */
  lemma {:induction false} SumZeros(b: seq<u8>, k: nat)
    requires k <= |b| && forall i :: k <= i < |b| ==> b[i] == 0
    ensures SumBytes(b) == SumBytes(b[..k])
    decreases |b|
  {
    if |b| > k {
      assert b[..|b| - 1][..k] == b[..k];
      SumZeros(b[..|b| - 1], k);
    } else {
      assert b[..k] == b;
    }
  }

  /** With an XSDT present, the scan as written misses the MADT in the RSDT's second entry; scanning every entry finds it. */
  lemma FindMissesSecondHalf(hhdm: u64)
    ensures FindAsWritten(TwoEntryRsdt(), 0x1000, APIC, true, hhdm).None?
    ensures Find(TwoEntryRsdt(), 0x1000, APIC, hhdm) == Some(Wrap64(0x3000 + hhdm))
  {
    var mem := TwoEntryRsdt();
    TwoEntryLayout();
    TwoEntryTables();
    assert EntryCountAsWritten(mem, 0x1000, true) == 1;
    assert EntryCount(mem, 0x1000) == 2;
    assert FindFrom(mem, 0x1000, APIC, 2, 0) == Some(1);
  }
}
