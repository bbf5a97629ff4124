/**
 * The interrupt descriptor table of idt.c: 256 gates, all routed to
 * generic_handler (whose address is a parameter), and the pointer that
 * lidt loads. Loading it and the handler's serial output are not modelled.
 */
module KernelIdt {
  import opened Machine
  import opened DescriptorSpec

  class Idt {
    const entries: array<Gate>
    /** The address of the table, which idt_ptr.base records. */
    const address: u64
    var limit: u16
    var base: u64

    ghost predicate Ready()
      reads this
    {
      entries.Length == IDT_ENTRIES
    }

    constructor(tableAddress: u64)
      ensures Ready() && address == tableAddress
    {
      entries := new Gate[IDT_ENTRIES](_ => ZERO_GATE);
      address := tableAddress;
      limit, base := 0, 0;
    }

    /** idt_set_descriptor of idt.c: offset_15_0, offset_31_16 and offset_63_32 from the address, selector 0x08, IST and zero 0. */
    method SetDescriptor(vector: u8, handler: u64, flags: u8)
      requires Ready()
      modifies entries
      ensures entries[..] == old(entries[..])[vector := PackGate(handler, flags)]
    {
      entries[vector] := PackGate(handler, flags);
    }

    /** idt_init of idt.c: every vector an interrupt gate to the handler; the limit is sizeof(idt) less one byte. */
    method Init(handler: u64)
      requires Ready()
      modifies this, entries
      ensures Ready() && entries[..] == UniformIdt(handler, IDT_ENTRIES)
      ensures limit as int == IDT_ENTRIES * GATE_SIZE - 1 && base == address
    {
      for i := 0 to IDT_ENTRIES
        invariant entries[..i] == UniformIdt(handler, i)
      {
        SetDescriptor(i as u8, handler, INTERRUPT_GATE);
        assert entries[..i + 1] == UniformIdt(handler, i + 1);
      }
      assert entries[..] == entries[..IDT_ENTRIES];
      limit := IDT_ENTRIES * GATE_SIZE - 1;
      base := address;
    }
  }
}
