/**
 * The checks and the RSDT scan of firmware/acpi/acpi.c as loops over
 * memory, each proved against the function of the same name in AcpiSpec.
 * The checksum loop counts with a counter wide enough for any table
 * length, where the C's uint8_t counter never reaches a length of 256 or
 * more (README.md, Findings); the log lines are not modelled.
 */
module Acpi {
  import opened Machine
  import opened Wrappers
  import opened AcpiSpec

  /** acpi_verify_sdt_header_checksum: 0 when the 8-bit sum of the table's bytes is 0, 1 otherwise. */
  method VerifyChecksum(mem: Memory, a: int) returns (r: int)
    ensures r == (if ChecksumOk(mem, a) then 0 else 1)
  {
    var checksum: u8 := 0;
    var length := FromLe(Load(mem, a + 4, 4));
    for i := 0 to length
      invariant checksum == SumBytes(Load(mem, a, i)) % 256
    {
      var b := Load(mem, a, i + 1);
      assert b[..i] == Load(mem, a, i);
      assert SumBytes(b) == SumBytes(Load(mem, a, i)) + mem(a + i);
      ModAdd(SumBytes(Load(mem, a, i)), mem(a + i));
      checksum := Wrap8(checksum + mem(a + i));
    }
    if checksum == 0 {
      return 0;
    }
    return 1;
  }

  /** acpi_check_sdt_header: the checksum is computed only when the signature matches. */
  method CheckSdtHeader(mem: Memory, a: int, sig: seq<u8>) returns (r: int)
    ensures r == CheckHeader(mem, a, sig)
  {
    if Load(mem, a, 4) == sig {
      var c := VerifyChecksum(mem, a);
      if c == 0 {
        return 0;
      }
    }
    return 1;
  }

  /** acpi_find_sdt_table over every 4-byte entry, given the RSDT's address and the higher-half offset. */
  method FindSdtTable(mem: Memory, rsdt: int, sig: seq<u8>, hhdm: u64) returns (table: Option<u64>)
    ensures table == Find(mem, rsdt, sig, hhdm)
  {
    var count := EntryCount(mem, rsdt);
    var i := 0;
    while i < count
      invariant 0 <= i <= count
      invariant FindFrom(mem, rsdt, sig, count, 0) == FindFrom(mem, rsdt, sig, count, i)
      decreases count - i
    {
      var entry := FromLe(Load(mem, rsdt + HEADER_SIZE + RSDT_ENTRY_SIZE * i, 4));
      assert entry == Entry(mem, rsdt, i);
      var ok := CheckSdtHeader(mem, entry, sig);
      if ok == 0 {
        assert FindFrom(mem, rsdt, sig, count, i) == Some(i);
        return Some(Wrap64(entry + hhdm));
      }
      i := i + 1;
    }
    assert FindFrom(mem, rsdt, sig, count, i) == None;
    return None;
  }
}
