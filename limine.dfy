/** The boot loader's memory map (limine/limine.h), an input to both frame allocators. */
module Limine {
  import opened Machine

  const MEMMAP_USABLE: u64 := 0
  const MEMMAP_RESERVED: u64 := 1
  const MEMMAP_ACPI_RECLAIMABLE: u64 := 2
  const MEMMAP_ACPI_NVS: u64 := 3
  const MEMMAP_BAD_MEMORY: u64 := 4
  const MEMMAP_BOOTLOADER_RECLAIMABLE: u64 := 5
  const MEMMAP_KERNEL_AND_MODULES: u64 := 6
  const MEMMAP_FRAMEBUFFER: u64 := 7

  /** struct limine_memmap_entry: a physical range and its type. */
  datatype MemmapEntry = MemmapEntry(base: u64, length: u64, kind: u64)

  /** base + length as the uint64_t sum the allocators compute. */
  function Top(e: MemmapEntry): u64
  { Wrap64(e.base + e.length) }

  /** Entry k is usable and large enough to hold a bitmap of `size` bytes. */
  predicate IsHome(es: seq<MemmapEntry>, size: nat, k: nat)
    requires k < |es|
  { es[k].kind == MEMMAP_USABLE && es[k].length >= size }

  /** Entry k is the first entry that can hold the bitmap: the one pmm_init picks. */
  predicate IsFirstHome(es: seq<MemmapEntry>, size: nat, k: nat)
  { k < |es| && IsHome(es, size, k) && forall i :: 0 <= i < k ==> !IsHome(es, size, i) }

  /** Some entry can hold the bitmap; without one, both pmm_init versions write through a NULL bitmap. */
  predicate HasHome(es: seq<MemmapEntry>, size: nat)
  { exists k :: 0 <= k < |es| && IsHome(es, size, k) }

  /** The search both pmm_init versions make for the bitmap's block: the first entry that can hold it. */
  method FindHome(es: seq<MemmapEntry>, size: nat) returns (k: nat)
    requires HasHome(es, size)
    ensures IsFirstHome(es, size, k)
  {
    k := 0;
    while !IsHome(es, size, k)
      invariant k < |es|
      invariant forall i :: 0 <= i < k ==> !IsHome(es, size, i)
      decreases |es| - k
    {
      k := k + 1;
      if k == |es| {
        assert false;
      }
    }
  }
}
