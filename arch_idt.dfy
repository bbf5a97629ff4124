/**
 * The interrupt descriptor table of arch/idt.c: 256 gates and the
 * descriptor idtr that lidt loads. The stub addresses of isr_stub_table
 * are a parameter; loading the table and the handlers' printing and
 * halting are not modelled.
 */
module ArchIdt {
  import opened Machine
  import opened DescriptorSpec

  class Idt {
    const entries: array<Gate>
    /** The address of the table, which idtr.base records. */
    const address: u64
    var limit: u16
    var base: u64

    ghost predicate Ready()
      reads this
    {
      entries.Length == IDT_ENTRIES
    }

    constructor(tableAddress: u64)
      ensures Ready() && address == tableAddress && limit == 0 && base == 0
    {
      entries := new Gate[IDT_ENTRIES](_ => ZERO_GATE);
      address := tableAddress;
      limit, base := 0, 0;
    }

    /** idt_set_descriptor: the vector's gate becomes the packed interrupt gate; the other vectors are unchanged. */
    method SetDescriptor(vector: u8, isr: u64, flags: u8)
      requires Ready()
      modifies entries
      ensures entries[..] == old(entries[..])[vector := PackGate(isr, flags)]
    {
      entries[vector] := PackGate(isr, flags);
    }

    /** idt_init: the limit of 256 gates less one byte, a zeroed table, then the exception stubs and the nonzero IRQ stubs. */
    method Init(stubs: seq<u64>)
      requires Ready() && |stubs| >= 48
      modifies this, entries
      ensures Ready() && entries[..] == ArchIdtAfter(stubs, 48)
      ensures limit as int == GATE_SIZE * IDT_ENTRIES - 1 && base == address
    {
      base := address;
      limit := GATE_SIZE * IDT_ENTRIES - 1;
      forall i | 0 <= i < IDT_ENTRIES {
        entries[i] := ZERO_GATE;
      }
      assert entries[..] == ArchIdtAfter(stubs, 0);
      for i := 0 to 32
        invariant entries[..] == ArchIdtAfter(stubs, i)
        invariant limit as int == GATE_SIZE * IDT_ENTRIES - 1 && base == address
      {
        SetDescriptor(i as u8, stubs[i], INTERRUPT_GATE);
        assert entries[..] == ArchIdtAfter(stubs, i + 1);
      }
      for i := 32 to 48
        invariant entries[..] == ArchIdtAfter(stubs, i)
        invariant limit as int == GATE_SIZE * IDT_ENTRIES - 1 && base == address
      {
        if stubs[i] != 0 {
          SetDescriptor(i as u8, stubs[i], INTERRUPT_GATE);
        }
        assert entries[..] == ArchIdtAfter(stubs, i + 1);
      }
    }
  }
}
