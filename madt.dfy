/**
 * madt_init of firmware/acpi/tables/madt.c as the kernel runs it: the four
 * pointer buffers are arrays of CAPACITY entries allocated by the call,
 * their counters are fields, and the walk loop is proved against
 * MadtSpec.Init.
 */
module Madt {
  import opened Machine
  import opened MadtSpec
  import AcpiSpec
  import Acpi

  class MadtTables {
    var madt: u64
    var lapics: array<int>
    var ioApics: array<int>
    var isos: array<int>
    var nmis: array<int>
    var lapicCount: nat
    var ioApicCount: nat
    var isoCount: nat
    var nmiCount: nat

    /** Every counter within its buffer, and the four buffers distinct. */
    ghost predicate Ready()
      reads this
    {
      lapicCount <= lapics.Length && ioApicCount <= ioApics.Length &&
      isoCount <= isos.Length && nmiCount <= nmis.Length &&
      lapics != ioApics && lapics != isos && lapics != nmis &&
      ioApics != isos && ioApics != nmis && isos != nmis
    }

    /** The pointers recorded so far, buffer by buffer. */
    function Lists(): Tables
      requires Ready()
      reads this, lapics, ioApics, isos, nmis
    {
      Tables(lapics[..lapicCount], ioApics[..ioApicCount], isos[..isoCount], nmis[..nmiCount])
    }

    /** Before madt_init: no table, no buffers, every counter at 0. */
    constructor()
      ensures Ready() && madt == 0 && Lists() == NO_TABLES
    {
      madt := 0;
      lapics, ioApics, isos, nmis := new int[0], new int[0], new int[0], new int[0];
      lapicCount, ioApicCount, isoCount, nmiCount := 0, 0, 0, 0;
    }

    /**
     * madt_init, given the RSDT and the higher-half offset the table search
     * uses. Returns false where the kernel halts because no MADT was found;
     * otherwise the four buffers hold the structures' addresses by type, in
     * table order. The counters start at 0 and the table's structures must
     * fit the buffers.
     */
    method Init(mem: Memory, rsdt: int, hhdm: u64) returns (found: bool)
      requires Ready() && Lists() == NO_TABLES
      requires var f := AcpiSpec.Find(mem, rsdt, AcpiSpec.APIC, hhdm);
        f.Some? ==> Walkable(mem, Start(f.value), End(mem, f.value)) && Fits(MadtSpec.Init(mem, f.value))
      modifies this
      ensures found == AcpiSpec.Find(mem, rsdt, AcpiSpec.APIC, hhdm).Some?
      ensures !found ==> unchanged(this)
      ensures found ==> madt == AcpiSpec.Find(mem, rsdt, AcpiSpec.APIC, hhdm).value
      ensures found ==> Ready() && Lists() == MadtSpec.Init(mem, madt) && fresh(lapics) && fresh(ioApics) && fresh(isos) && fresh(nmis)
    {
      var f := Acpi.FindSdtTable(mem, rsdt, AcpiSpec.APIC, hhdm);
      if f.None? {
        return false;
      }
      madt := f.value;
      WalkTable(mem);
      found := true;
    }

    /** The allocations and the loop of madt_init over the table at madt. */
    method WalkTable(mem: Memory)
      requires Ready() && Lists() == NO_TABLES
      requires Walkable(mem, Start(madt as int), End(mem, madt as int)) && Fits(MadtSpec.Init(mem, madt as int))
      modifies this
      ensures madt == old(madt)
      ensures Ready() && Lists() == MadtSpec.Init(mem, madt as int) && fresh(lapics) && fresh(ioApics) && fresh(isos) && fresh(nmis)
    {
      var base := madt as int;
      ghost var whole := MadtSpec.Init(mem, base);
      Allocate();
      var end := End(mem, base);
      var p := Start(base);
      while p < end
        invariant Ready() && fresh(lapics) && fresh(ioApics) && fresh(isos) && fresh(nmis) && madt == old(madt)
        invariant lapics.Length == CAPACITY && ioApics.Length == CAPACITY && isos.Length == CAPACITY && nmis.Length == CAPACITY
        invariant Walkable(mem, p, end) && Walk(mem, p, end, Lists()) == whole
        decreases end - p
      {
        WalkStep(mem, p, end, Lists(), whole);
        RecordAt(mem, p);
        p := p + mem(p + 1);
      }
      assert Walk(mem, p, end, Lists()) == Lists();
    }

    /** The four kmalloc(256) calls of madt_init: fresh buffers of CAPACITY pointers each. */
    method Allocate()
      requires Ready() && Lists() == NO_TABLES
      modifies this
      ensures madt == old(madt) && Ready() && Lists() == NO_TABLES
      ensures fresh(lapics) && fresh(ioApics) && fresh(isos) && fresh(nmis)
      ensures lapics.Length == CAPACITY && ioApics.Length == CAPACITY && isos.Length == CAPACITY && nmis.Length == CAPACITY
    {
      lapics, ioApics, isos, nmis := new int[CAPACITY], new int[CAPACITY], new int[CAPACITY], new int[CAPACITY];
    }

    /** The switch of madt_init's loop: the structure at p goes to the buffer of its type, if any. */
    method RecordAt(mem: Memory, p: int)
      requires Ready() && Fits(Record(mem, p, Lists()))
      requires lapics.Length == CAPACITY && ioApics.Length == CAPACITY && isos.Length == CAPACITY && nmis.Length == CAPACITY
      modifies this, lapics, ioApics, isos, nmis
      ensures Ready() && Lists() == Record(mem, p, old(Lists()))
      ensures madt == old(madt) && lapics == old(lapics) && ioApics == old(ioApics) && isos == old(isos) && nmis == old(nmis)
    {
      var kind := mem(p);
      if kind == LOCAL_APIC {
        lapics[lapicCount] := p;
        lapicCount := lapicCount + 1;
      } else if kind == IO_APIC {
        ioApics[ioApicCount] := p;
        ioApicCount := ioApicCount + 1;
      } else if kind == INTERRUPT_SOURCE_OVERRIDE {
        isos[isoCount] := p;
        isoCount := isoCount + 1;
      } else if kind == LAPIC_NMI {
        nmis[nmiCount] := p;
        nmiCount := nmiCount + 1;
      }
    }
  }
}
