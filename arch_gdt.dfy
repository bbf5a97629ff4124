/**
 * The global descriptor table of arch/gdt.c: five 8-byte entries and the
 * descriptor gdtr that lgdt loads. Loading it (gdt_load) is not modelled.
 */
module ArchGdt {
  import opened Machine
  import opened DescriptorSpec

  class Gdt {
    const entries: array<Segment>
    /** The address of the table, which gdtr.offset records. */
    const address: u64
    var gdtrSize: u16
    var gdtrOffset: u64

    ghost predicate Ready()
      reads this
    {
      entries.Length == 5
    }

    /** The zero-initialised static table and descriptor. */
    constructor(tableAddress: u64)
      ensures Ready() && address == tableAddress && gdtrSize == 0 && gdtrOffset == 0
      ensures forall i :: 0 <= i < 5 ==> entries[i] == NULL_SEGMENT
    {
      entries := new Segment[5](_ => NULL_SEGMENT);
      address := tableAddress;
      gdtrSize, gdtrOffset := 0, 0;
    }

    /** gdt_set_entry: entry index becomes the packed descriptor; the other entries are unchanged. */
    method SetEntry(index: int, base: u32, limit: u32, access: u8, gran: u8)
      requires Ready() && 0 <= index < 5
      modifies entries
      ensures entries[..] == old(entries[..])[index := PackSegment(base, limit, access, gran)]
    {
      entries[index] := PackSegment(base, limit, access, gran);
    }

    /** gdt_init: the null, kernel code, kernel data, user code and user data segments, and a limit of five entries less one byte. */
    method Init()
      requires Ready()
      modifies this, entries
      ensures Ready()
      ensures entries[0] == PackSegment(0, 0, 0, 0)
      ensures entries[1] == PackSegment(0, FLAT_LIMIT, KERNEL_CODE, LONG_MODE_4K)
      ensures entries[2] == PackSegment(0, FLAT_LIMIT, KERNEL_DATA, LONG_MODE_4K)
      ensures entries[3] == PackSegment(0, FLAT_LIMIT, USER_CODE, LONG_MODE_4K)
      ensures entries[4] == PackSegment(0, FLAT_LIMIT, USER_DATA, LONG_MODE_4K)
      ensures gdtrSize as int == 5 * SEGMENT_SIZE - 1 && gdtrOffset == address
    {
      SetEntry(0, 0, 0, 0, 0);
      SetEntry(1, 0, FLAT_LIMIT, KERNEL_CODE, LONG_MODE_4K);
      SetEntry(2, 0, FLAT_LIMIT, KERNEL_DATA, LONG_MODE_4K);
      SetEntry(3, 0, FLAT_LIMIT, USER_CODE, LONG_MODE_4K);
      SetEntry(4, 0, FLAT_LIMIT, USER_DATA, LONG_MODE_4K);
      gdtrSize := 5 * SEGMENT_SIZE - 1;
      gdtrOffset := address;
    }
  }
}
