/**
 * cpu.c's own tables: a five-entry GDT of which cpu_init fills the first
 * three, and a 256-gate IDT routed entirely to generic_handler, whose
 * address is a parameter. lgdt, lidt and sti are not modelled.
 */
module Cpu {
  import opened Machine
  import opened DescriptorSpec

  class CpuTables {
    const gdt: array<Segment>
    const idt: array<Gate>
    /** The addresses of the two tables, which the pointers' base fields record. */
    const gdtAddress: u64
    const idtAddress: u64
    var gdtLimit: u16
    var gdtBase: u64
    var idtLimit: u16
    var idtBase: u64

    ghost predicate Ready()
      reads this
    {
      gdt.Length == 5 && idt.Length == IDT_ENTRIES
    }

    constructor(gdtAt: u64, idtAt: u64)
      ensures Ready() && gdtAddress == gdtAt && idtAddress == idtAt
      ensures forall i :: 0 <= i < 5 ==> gdt[i] == NULL_SEGMENT
    {
      gdt := new Segment[5](_ => NULL_SEGMENT);
      idt := new Gate[IDT_ENTRIES](_ => ZERO_GATE);
      gdtAddress, idtAddress := gdtAt, idtAt;
      gdtLimit, gdtBase, idtLimit, idtBase := 0, 0, 0, 0;
    }

    /** cpu.c's gdt_set_entry, packing exactly as arch/gdt.c does. */
    method SetEntry(i: int, base: u32, limit: u32, access: u8, gran: u8)
      requires Ready() && 0 <= i < 5
      modifies gdt
      ensures gdt[..] == old(gdt[..])[i := PackSegment(base, limit, access, gran)]
    {
      gdt[i] := PackSegment(base, limit, access, gran);
    }

    /** cpu.c's idt_set_descriptor. */
    method SetDescriptor(vector: u8, isr: u64, flags: u8)
      requires Ready()
      modifies idt
      ensures idt[..] == old(idt[..])[vector := PackGate(isr, flags)]
    {
      idt[vector] := PackGate(isr, flags);
    }

    /**
     * cpu_init: null, kernel code and kernel data in entries 0-2 (3 and 4
     * keep their contents) under a five-entry limit; every vector an
     * interrupt gate to the handler, under a 256-gate limit.
     */
    method Init(handler: u64)
      requires Ready()
      modifies this, gdt, idt
      ensures Ready()
      ensures gdt[0] == PackSegment(0, 0, 0, 0)
      ensures gdt[1] == PackSegment(0, FLAT_LIMIT, KERNEL_CODE, LONG_MODE_4K)
      ensures gdt[2] == PackSegment(0, FLAT_LIMIT, KERNEL_DATA, LONG_MODE_4K)
      ensures gdt[3] == old(gdt[3]) && gdt[4] == old(gdt[4])
      ensures gdtLimit as int == SEGMENT_SIZE * 5 - 1 && gdtBase == gdtAddress
      ensures idt[..] == UniformIdt(handler, IDT_ENTRIES)
      ensures idtLimit as int == GATE_SIZE * IDT_ENTRIES - 1 && idtBase == idtAddress
    {
      SetEntry(0, 0, 0, 0, 0);
      SetEntry(1, 0, FLAT_LIMIT, KERNEL_CODE, LONG_MODE_4K);
      SetEntry(2, 0, FLAT_LIMIT, KERNEL_DATA, LONG_MODE_4K);
      gdtLimit := SEGMENT_SIZE * 5 - 1;
      gdtBase := gdtAddress;
      ghost var segments := gdt[..];
      for i := 0 to IDT_ENTRIES
        invariant idt[..i] == UniformIdt(handler, i)
        invariant gdt[..] == segments && gdtLimit as int == SEGMENT_SIZE * 5 - 1 && gdtBase == gdtAddress
      {
        SetDescriptor(i as u8, handler, INTERRUPT_GATE);
        assert idt[..i + 1] == UniformIdt(handler, i + 1);
      }
      assert idt[..] == idt[..IDT_ENTRIES];
      idtLimit := GATE_SIZE * IDT_ENTRIES - 1;
      idtBase := idtAddress;
    }
  }
}
