/**
 * The global descriptor table of gdt.c: six segment descriptors and the
 * two halves of the TSS descriptor, as the fields of one static structure,
 * and the pointer that lgdt loads. The far return that reloads CS, the
 * segment register loads and ltr are not modelled.
 */
module KernelGdt {
  import opened Machine
  import opened DescriptorSpec

  /** sizeof(struct GDT): eight packed 8-byte descriptors. */
  const GDT_SIZE: int := 8 * SEGMENT_SIZE

  class Gdt {
    var nullEntry: Segment
    var kernelCode: Segment
    var kernelData: Segment
    var userNull: Segment
    var userData: Segment
    var userCode: Segment
    var tssLow: Segment
    var tssHigh: Segment
    /** The addresses of the table and of the TSS. */
    const address: u64
    const tss: u64
    var limit: u16
    var base: u64

    /** The zero-initialised static structure. */
    constructor(tableAddress: u64, tssAddress: u64)
      ensures address == tableAddress && tss == tssAddress
      ensures tssHigh == NULL_SEGMENT && tssLow == NULL_SEGMENT
    {
      nullEntry, kernelCode, kernelData, userNull := NULL_SEGMENT, NULL_SEGMENT, NULL_SEGMENT, NULL_SEGMENT;
      userData, userCode, tssLow, tssHigh := NULL_SEGMENT, NULL_SEGMENT, NULL_SEGMENT, NULL_SEGMENT;
      address, tss := tableAddress, tssAddress;
      limit, base := 0, 0;
    }

    /**
     * gdt_init: the six segment literals (base and limit 0, the 0xA0
     * flags), the TSS descriptor for the TSS address (of whose high half
     * only two words are assigned), and a limit of sizeof(gdt) less one byte.
     */
    method Init()
      modifies this
      ensures nullEntry == NULL_SEGMENT && userNull == NULL_SEGMENT
      ensures kernelCode == Segment(0, 0, 0, KERNEL_CODE, LONG_MODE_4K, 0) && userCode == kernelCode
      ensures kernelData == Segment(0, 0, 0, KERNEL_DATA, LONG_MODE_4K, 0) && userData == kernelData
      ensures tssLow == TssLow(tss) && tssHigh == TssHigh(old(tssHigh), tss)
      ensures limit as int == GDT_SIZE - 1 && base == address
    {
      nullEntry := NULL_SEGMENT;
      kernelCode := Segment(0, 0, 0, KERNEL_CODE, LONG_MODE_4K, 0);
      kernelData := Segment(0, 0, 0, KERNEL_DATA, LONG_MODE_4K, 0);
      userNull := NULL_SEGMENT;
      userData := Segment(0, 0, 0, KERNEL_DATA, LONG_MODE_4K, 0);
      userCode := Segment(0, 0, 0, KERNEL_CODE, LONG_MODE_4K, 0);
      tssLow := tssLow.(limitLow := TSS_SIZE);
      tssLow := tssLow.(baseLow := tss % 0x1_0000);
      tssLow := tssLow.(baseMiddle := (tss / 0x1_0000) % 0x100);
      tssLow := tssLow.(baseHigh := (tss / 0x100_0000) % 0x100);
      tssLow := tssLow.(access := TSS_AVAILABLE);
      tssLow := tssLow.(granularity := TSS_FLAGS);
      tssHigh := tssHigh.(limitLow := (tss / 0x1_0000_0000) % 0x1_0000);
      tssHigh := tssHigh.(baseLow := (tss / 0x1_0000_0000_0000) % 0x1_0000);
      limit := GDT_SIZE - 1;
      base := address;
    }
  }
}
