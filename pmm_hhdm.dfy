/**
 * The physical frame allocator of memory/pmm.c: a bitmap with one bit per
 * 4 KiB page (set = used), reached through the higher-half direct map
 * (HHDM), first-fit allocation returning virtual addresses
 * (frame * PAGE_SIZE + HHDM offset), and a count of used pages.
 */
module HhdmPmm {
  import opened Machine
  import opened Wrappers
  import opened Limine
  import opened Bitmap
  import opened FirstFit

  /** The entry types whose top counts toward the highest address (memory/pmm.c:22-24). */
  predicate CountsTowardTop(e: MemmapEntry)
  {
    e.kind == MEMMAP_USABLE || e.kind == MEMMAP_BOOTLOADER_RECLAIMABLE ||
    e.kind == MEMMAP_KERNEL_AND_MODULES
  }

  /** The highest base + length over the usable, reclaimable and kernel entries. */
  function HighestTop(es: seq<MemmapEntry>): (r: u64)
    ensures forall i :: 0 <= i < |es| && CountsTowardTop(es[i]) ==> Top(es[i]) <= r
    ensures r == 0 || exists i :: 0 <= i < |es| && CountsTowardTop(es[i]) && r == Top(es[i])
  {
    if |es| == 0 then 0
    else
      var rest := HighestTop(es[..|es| - 1]);
      assert forall i :: 0 <= i < |es| - 1 ==> es[..|es| - 1][i] == es[i];
      var last := es[|es| - 1];
      if CountsTowardTop(last) && Top(last) > rest then Top(last) else rest
  }

  /** bitmap_size: max_pages / 8 + 1 bytes, rounded up to whole pages. */
  function BitmapSize(maxPages: nat): (r: nat)
    ensures 8 * r > maxPages
    ensures r % PAGE_SIZE == 0 && r > 0
    ensures r < maxPages / 8 + 1 + PAGE_SIZE
  { AlignPage(maxPages / 8 + 1) }

  /**
   * The entry and the init loop's page cursor stay below 2^64: the loop
   * adds PAGE_SIZE to a uint64_t cursor until it reaches the length.
   */
  predicate NoWrap(e: MemmapEntry)
  { e.base + e.length + PAGE_SIZE <= U64_LIMIT }

  /** The memory map after the bitmap's `size` bytes are taken from the front of entry k. */
  function Carve(es: seq<MemmapEntry>, k: nat, size: nat): (r: seq<MemmapEntry>)
    requires k < |es| && size <= es[k].length && NoWrap(es[k])
    ensures |r| == |es| && r[k].base == es[k].base + size && r[k].length == es[k].length - size
    ensures r[k].kind == es[k].kind && NoWrap(r[k])
    ensures forall i :: 0 <= i < |es| && i != k ==> r[i] == es[i]
  { es[k := MemmapEntry(es[k].base + size, es[k].length - size, es[k].kind)] }

  /** The first page the init loop visits for entry e. */
  function FirstPage(e: MemmapEntry): nat
  { e.base / PAGE_SIZE }

  /** The number of pages the init loop visits for e: one per started 4 KiB of its length. */
  function PageCount(e: MemmapEntry): nat
  { (e.length + PAGE_SIZE - 1) / PAGE_SIZE }

  /** Page p is one of the pages the init loop visits for e. */
  predicate InPages(e: MemmapEntry, p: nat)
  { FirstPage(e) <= p < FirstPage(e) + PageCount(e) }

  /** How many of the first t pages visited for e lie below maxPages. */
  function PagesBelow(e: MemmapEntry, t: nat, maxPages: nat): (r: nat)
    ensures r <= t
  { if FirstPage(e) >= maxPages then 0 else Min(t, maxPages - FirstPage(e)) }

  /** Page p is visited for some usable entry of es. */
  predicate Covered(es: seq<MemmapEntry>, p: nat)
  {
    |es| > 0 &&
      (Covered(es[..|es| - 1], p) || (es[|es| - 1].kind == MEMMAP_USABLE && InPages(es[|es| - 1], p)))
  }

  /** The number of used_pages decrements init makes: every visited page below maxPages, once per visit. */
  function FreedCount(es: seq<MemmapEntry>, maxPages: nat): nat
  {
    if |es| == 0 then 0
    else
      var last := es[|es| - 1];
      FreedCount(es[..|es| - 1], maxPages) +
        (if last.kind == MEMMAP_USABLE then PagesBelow(last, PageCount(last), maxPages) else 0)
  }

  /** Covered is the recursive form of "some usable entry visits p", in both directions. */
  lemma {:induction false} CoveredIff(es: seq<MemmapEntry>, p: nat)
    ensures Covered(es, p) <==> exists k :: 0 <= k < |es| && es[k].kind == MEMMAP_USABLE && InPages(es[k], p)
  {
    if |es| > 0 {
      var front := es[..|es| - 1];
      CoveredIff(front, p);
      assert forall k :: 0 <= k < |front| ==> front[k] == es[k];
    }
  }

  /** Adding entry i to the entries already scanned adds its pages and its decrements. */
  lemma ScanStep(es: seq<MemmapEntry>, i: nat, maxPages: nat)
    requires i < |es|
    ensures forall p :: Covered(es[..i + 1], p) == (Covered(es[..i], p) || (es[i].kind == MEMMAP_USABLE && InPages(es[i], p)))
    ensures FreedCount(es[..i + 1], maxPages) ==
      FreedCount(es[..i], maxPages) + (if es[i].kind == MEMMAP_USABLE then PagesBelow(es[i], PageCount(es[i]), maxPages) else 0)
  {
    assert es[..i + 1][..i] == es[..i];
  }

  /**
   * The carve leaves the bitmap's own pages out of the home entry: when
   * the entry starts on a page boundary, no page the init loop visits for
   * it lies in the bitmap.
   */
  lemma CarvedHomeSkipsBitmap(es: seq<MemmapEntry>, k: nat, size: nat, p: nat)
    requires k < |es| && size <= es[k].length && NoWrap(es[k])
    requires size % PAGE_SIZE == 0 && es[k].base % PAGE_SIZE == 0
    requires FirstPage(es[k]) <= p < FirstPage(es[k]) + size / PAGE_SIZE
    ensures !InPages(Carve(es, k, size)[k], p)
  {
    assert FirstPage(Carve(es, k, size)[k]) == FirstPage(es[k]) + size / PAGE_SIZE;
  }

  /** Page p's bit after init: frame 0 is reserved, other pages are clear exactly when visited below maxPages. */
  predicate UsedAfterInit(es: seq<MemmapEntry>, maxPages: nat, p: nat)
  { p == 0 || !(p < maxPages && Covered(es, p)) }

  /** The page pmm_free starts at: (ptr - HHDM offset) as a uint64_t, divided by the page size. */
  function PageOf(ptr: u64, hhdm: u64): nat
  { Wrap64(ptr - hhdm) / PAGE_SIZE }

  /** (base + j) / PAGE_SIZE for the cursor j of the t-th iteration. */
  lemma PageOfCursor(base: nat, t: nat)
    ensures (base + PAGE_SIZE * t) / PAGE_SIZE == base / PAGE_SIZE + t
  {
  }

  /**
   * One step of pmm_free's loop: clearing bit start+i extends the cleared
   * range, and the bit still holds its original value, counted once.
   */
  lemma ClearStep(m: seq<bv8>, start: nat, i: nat)
    requires start + i < 8 * |m|
    ensures With(SetRange(m, start, i, false), start + i, false) == SetRange(m, start, i + 1, false)
    ensures B2N(Test(SetRange(m, start, i, false), start + i)) == CountSet(m, start + i + 1) - CountSet(m, start + i)
  {
    SetRangeTest(m, start, i, false, start + i);
    SetRangeSnoc(m, start, i, false);
    CountSetStep(m, start + i + 1);
  }

  /**
   * pmm_alloc keeps used_pages minus the number of set bits constant: a
   * found run was clear, so setting it adds exactly the pages counted.
   */
  lemma AllocKeepsBalance(m: seq<bv8>, limit: nat, n: nat, used: int)
    requires limit <= 8 * |m|
    requires Search(m, limit, n).Some?
    ensures var s := Search(m, limit, n).value;
      (used + n) - Population(SetRange(m, s, n, true)) == used - Population(m)
  {
    var s := Search(m, limit, n).value;
    SearchIsLowestRun(m, limit, n, s);
    PopulationSetClearRun(m, s, n);
  }

  /** After init (bit 0 set), pmm_alloc never hands out page 0. */
  lemma AllocSkipsPageZero(m: seq<bv8>, limit: nat, n: nat)
    requires limit <= 8 * |m| && 0 < |m| && Test(m, 0)
    requires Search(m, limit, n).Some?
    ensures Search(m, limit, n).value > 0
    ensures Test(SetRange(m, Search(m, limit, n).value, n, true), 0)
  {
    var s := Search(m, limit, n).value;
    SearchAvoidsSetBit(m, limit, n, 0);
    SetRangeTest(m, s, n, true, 0);
  }

  /**
   * pmm_free keeps used_pages minus the number of set bits constant: it
   * decrements once for each bit it actually clears.
   */
  lemma FreeKeepsBalance(m: seq<bv8>, s: nat, n: nat, used: int)
    requires s + n <= 8 * |m|
    ensures (used - (CountSet(m, s + n) - CountSet(m, s))) - Population(SetRange(m, s, n, false)) ==
      used - Population(m)
  {
    PopulationClearRange(m, s, n);
  }

  /** Freeing the same pages twice: the second pmm_free clears nothing and counts nothing. */
  lemma DoubleFreeIsNoOp(m: seq<bv8>, s: nat, n: nat)
    requires s + n <= 8 * |m|
    ensures var once := SetRange(m, s, n, false);
      SetRange(once, s, n, false) == once && CountSet(once, s + n) - CountSet(once, s) == 0
  {
    ClearRangeTwice(m, s, n);
    CountSetClearRun(SetRange(m, s, n, false), s, n);
  }

  class FrameAllocator {
    /** The bitmap, one bit per page; bit set means used. */
    var bitmap: array<bv8>
    /** pmm_info.memmap: the boot loader's map, with the bitmap's block carved out. */
    var memmap: seq<MemmapEntry>
    /** pmm_info.total_memory. */
    var totalMemory: u64
    /** pmm_info.max_pages: the number of pages the allocator searches. */
    var maxPages: nat
    /** pmm_info.used_pages. */
    var usedPages: int
    /** hhdm_offset: added to physical addresses to reach them. */
    var hhdmOffset: u64
    /** highest_address: a static that keeps its value across calls of pmm_init. */
    var highestAddress: u64
    /** The physical address of the bitmap's block. */
    var bitmapBase: u64

    /** The bitmap has a bit for every searched page, and every bit index fits the int of bitmap.c. */
    ghost predicate Valid()
      reads this
    {
      maxPages <= 8 * bitmap.Length && 8 * bitmap.Length < 0x8000_0000
    }

    /** The zero-initialised statics before pmm_init. */
    constructor ()
      ensures Valid() && bitmap.Length == 0 && maxPages == 0 && usedPages == 0
      ensures hhdmOffset == 0 && highestAddress == 0 && memmap == []
    {
      bitmap := new bv8[0];
      memmap := [];
      totalMemory := 0;
      maxPages := 0;
      usedPages := 0;
      hhdmOffset := 0;
      highestAddress := 0;
      bitmapBase := 0;
    }

    /**
     * pmm_init. The HHDM offset is taken when the boot loader answered.
     * The bitmap's block is carved from the first usable entry that holds
     * it; every bit starts set, the pages of every usable entry below
     * max_pages are cleared with one used_pages decrement per visit, and
     * bit 0 is set again with no accounting.
     */
    method Init(hhdmResponse: Option<u64>, es: seq<MemmapEntry>)
      requires forall i :: 0 <= i < |es| ==> NoWrap(es[i])
      requires Max(highestAddress, HighestTop(es)) / PAGE_SIZE < 0x7FFF_0000
      requires HasHome(es, BitmapSize(Max(highestAddress, HighestTop(es)) / PAGE_SIZE))
      modifies this
      ensures Valid()
      ensures hhdmOffset == (if hhdmResponse.Some? then hhdmResponse.value else old(hhdmOffset))
      ensures highestAddress == Max(old(highestAddress), HighestTop(es)) && totalMemory == highestAddress
      ensures maxPages == highestAddress / PAGE_SIZE
      ensures fresh(bitmap) && bitmap.Length == BitmapSize(maxPages)
      ensures exists k: nat ::
        IsFirstHome(es, bitmap.Length, k) && bitmapBase == es[k].base && memmap == Carve(es, k, bitmap.Length)
      ensures forall p :: 0 <= p < 8 * bitmap.Length ==> Test(bitmap[..], p) == UsedAfterInit(memmap, maxPages, p)
      ensures usedPages == maxPages - FreedCount(memmap, maxPages)
    {
      Measure(hhdmResponse, es);
      PlaceBitmap(es);
    }

    /**
     * The second part of pmm_init: the bitmap's block is taken from the
     * first usable entry that holds it, and the bitmap is filled in.
     */
    method PlaceBitmap(es: seq<MemmapEntry>)
      requires forall i :: 0 <= i < |es| ==> NoWrap(es[i])
      requires maxPages < 0x7FFF_0000 && HasHome(es, BitmapSize(maxPages))
      modifies this`bitmap, this`bitmapBase, this`memmap, this`usedPages
      ensures Valid()
      ensures fresh(bitmap) && bitmap.Length == BitmapSize(maxPages)
      ensures exists k: nat ::
        IsFirstHome(es, bitmap.Length, k) && bitmapBase == es[k].base && memmap == Carve(es, k, bitmap.Length)
      ensures forall p :: 0 <= p < 8 * bitmap.Length ==> Test(bitmap[..], p) == UsedAfterInit(memmap, maxPages, p)
      ensures usedPages == old(usedPages) - FreedCount(memmap, maxPages)
    {
      var size := BitmapSize(maxPages);
      var k := FindHome(es, size);
      bitmapBase := es[k].base;
      memmap := Carve(es, k, size);
      assert forall i :: 0 <= i < |memmap| ==> NoWrap(memmap[i]) by {
        forall i | 0 <= i < |memmap| ensures NoWrap(memmap[i]) {
          if i != k { assert memmap[i] == es[i]; }
        }
      }
      bitmap := new bv8[size](_ => 0xFF);
      assert IsFirstHome(es, bitmap.Length, k);
      FillBitmap();
    }

    /** The first part of pmm_init: the HHDM offset, then the sizes taken from the memory map. */
    method Measure(hhdmResponse: Option<u64>, es: seq<MemmapEntry>)
      modifies this`hhdmOffset, this`highestAddress, this`totalMemory, this`maxPages, this`usedPages
      ensures hhdmOffset == (if hhdmResponse.Some? then hhdmResponse.value else old(hhdmOffset))
      ensures highestAddress == Max(old(highestAddress), HighestTop(es)) && totalMemory == highestAddress
      ensures maxPages == highestAddress / PAGE_SIZE && usedPages == maxPages
    {
      if hhdmResponse.Some? {
        hhdmOffset := hhdmResponse.value;
      }
      highestAddress := ScanHighest(es, highestAddress);
      totalMemory := highestAddress;
      maxPages := highestAddress / PAGE_SIZE;
      usedPages := maxPages;
    }

    /** The bitmap part of pmm_init, after k_memset has set every byte to 0xFF. */
    method FillBitmap()
      requires Valid() && 0 < bitmap.Length
      requires forall i :: 0 <= i < |memmap| ==> NoWrap(memmap[i])
      requires forall n :: 0 <= n < bitmap.Length ==> bitmap[n] == 0xFF
      modifies bitmap, this`usedPages
      ensures forall p :: 0 <= p < 8 * bitmap.Length ==> Test(bitmap[..], p) == UsedAfterInit(memmap, maxPages, p)
      ensures usedPages == old(usedPages) - FreedCount(memmap, maxPages)
    {
      AllOnes(bitmap[..]);
      FreeUsable();
      ReservePageZero();
    }

    /** The last step of pmm_init: bit 0 is set again, whatever the memory map said about page 0. */
    method ReservePageZero()
      requires 0 < bitmap.Length
      requires forall p :: 0 <= p < 8 * bitmap.Length ==> Test(bitmap[..], p) == !(p < maxPages && Covered(memmap, p))
      modifies bitmap
      ensures forall p :: 0 <= p < 8 * bitmap.Length ==> Test(bitmap[..], p) == UsedAfterInit(memmap, maxPages, p)
    {
      ghost var m := bitmap[..];
      SetBit(bitmap, 0);
      forall p | 0 <= p < 8 * bitmap.Length ensures Test(bitmap[..], p) == UsedAfterInit(memmap, maxPages, p) {
        if p == 0 { WithSame(m, 0, true); } else { WithOther(m, 0, true, p); }
      }
    }

    /** The first loop of pmm_init: the highest top of the counted entries, starting from the old value. */
    static method ScanHighest(es: seq<MemmapEntry>, start: u64) returns (highest: u64)
      ensures highest == Max(start, HighestTop(es))
    {
      highest := start;
      var i := 0;
      while i < |es|
        invariant 0 <= i <= |es|
        invariant highest == Max(start, HighestTop(es[..i]))
      {
        assert es[..i + 1][..i] == es[..i];
        if CountsTowardTop(es[i]) {
          var top := Top(es[i]);
          if top > highest {
            highest := top;
          }
        }
        i := i + 1;
      }
      assert es[..|es|] == es;
    }

    /** The third loop of pmm_init, over the carved map. */
    method FreeUsable()
      requires Valid()
      requires forall i :: 0 <= i < |memmap| ==> NoWrap(memmap[i])
      requires forall p :: 0 <= p < 8 * bitmap.Length ==> Test(bitmap[..], p)
      modifies bitmap, this`usedPages
      ensures forall p :: 0 <= p < 8 * bitmap.Length ==>
        Test(bitmap[..], p) == !(p < maxPages && Covered(memmap, p))
      ensures usedPages == old(usedPages) - FreedCount(memmap, maxPages)
    {
      var i := 0;
      while i < |memmap|
        invariant 0 <= i <= |memmap|
        invariant forall p :: 0 <= p < 8 * bitmap.Length ==>
          Test(bitmap[..], p) == !(p < maxPages && Covered(memmap[..i], p))
        invariant usedPages == old(usedPages) - FreedCount(memmap[..i], maxPages)
      {
        ScanStep(memmap, i, maxPages);
        if memmap[i].kind == MEMMAP_USABLE {
          FreeEntryPages(memmap[i]);
        }
        i := i + 1;
      }
      assert memmap[..|memmap|] == memmap;
    }

    /** The inner loop of pmm_init: clears each page of e below max_pages and counts it free. */
    method FreeEntryPages(e: MemmapEntry)
      requires Valid() && NoWrap(e)
      modifies bitmap, this`usedPages
      ensures forall p :: 0 <= p < 8 * bitmap.Length ==>
        Test(bitmap[..], p) == (Test(old(bitmap[..]), p) && !(p < maxPages && InPages(e, p)))
      ensures usedPages == old(usedPages) - PagesBelow(e, PageCount(e), maxPages)
    {
      ghost var m := bitmap[..];
      var j: u64 := 0;
      ghost var t: nat := 0;
      while j < e.length
        invariant j == PAGE_SIZE * t && t <= PageCount(e)
        invariant forall p :: 0 <= p < 8 * bitmap.Length ==>
          Test(bitmap[..], p) == (Test(m, p) && !(p < maxPages && FirstPage(e) <= p < FirstPage(e) + t))
        invariant usedPages == old(usedPages) - PagesBelow(e, t, maxPages)
        decreases e.length - j
      {
        var page := (e.base + j) / PAGE_SIZE;
        PageOfCursor(e.base, t);
        if page < maxPages {
          ghost var before := bitmap[..];
          UnsetBit(bitmap, page);
          forall p | 0 <= p < 8 * bitmap.Length
            ensures Test(bitmap[..], p) == (Test(m, p) && !(p < maxPages && FirstPage(e) <= p < FirstPage(e) + t + 1))
          {
            if p == page { WithSame(before, page, false); } else { WithOther(before, page, false, p); }
          }
          usedPages := usedPages - 1;
        }
        j := j + PAGE_SIZE;
        t := t + 1;
      }
    }

    /**
     * pmm_alloc(page_count): first fit over the first max_pages pages.
     * The run found is marked used, counted in used_pages and returned as
     * its HHDM address; with no run, and always for a count of 0, the
     * result is NULL and nothing changes.
     */
    method Alloc(count: nat) returns (ptr: u64)
      requires Valid()
      modifies bitmap, this`usedPages
      ensures match Search(old(bitmap[..]), maxPages, count)
        case Some(s) =>
          ptr == Wrap64(s * PAGE_SIZE + hhdmOffset) && usedPages == old(usedPages) + count &&
          bitmap[..] == SetRange(old(bitmap[..]), s, count, true)
        case None => ptr == 0 && usedPages == old(usedPages) && bitmap[..] == old(bitmap[..])
    {
      if count == 0 {
        return 0;
      }
      var found, start := FindRun(bitmap, maxPages, count);
      if found {
        SetPages(start, count);
        usedPages := usedPages + count;
        return Wrap64(start * PAGE_SIZE + hhdmOffset);
      }
      return 0;
    }

    /** The marking loop of pmm_alloc: sets the bits of pages start .. start+count-1. */
    method SetPages(start: nat, count: nat)
      requires start + count <= 8 * bitmap.Length
      modifies bitmap
      ensures bitmap[..] == SetRange(old(bitmap[..]), start, count, true)
    {
      ghost var m := bitmap[..];
      var j := 0;
      while j < count
        invariant 0 <= j <= count
        invariant bitmap[..] == SetRange(m, start, j, true)
      {
        SetBit(bitmap, start + j);
        SetRangeSnoc(m, start, j, true);
        j := j + 1;
      }
    }

    /**
     * pmm_free(ptr, page_count): NULL is ignored. Otherwise the pages from
     * (ptr - HHDM offset) / PAGE_SIZE on are cleared, and used_pages drops
     * by the number of them that were set, so a second free of the same
     * pages changes nothing.
     */
    method Free(ptr: u64, count: nat)
      requires Valid()
      requires ptr != 0 ==> PageOf(ptr, hhdmOffset) + count <= 8 * bitmap.Length
      modifies bitmap, this`usedPages
      ensures ptr == 0 ==> bitmap[..] == old(bitmap[..]) && usedPages == old(usedPages)
      ensures ptr != 0 ==>
        bitmap[..] == SetRange(old(bitmap[..]), PageOf(ptr, hhdmOffset), count, false) &&
        usedPages == old(usedPages) -
          (CountSet(old(bitmap[..]), PageOf(ptr, hhdmOffset) + count) - CountSet(old(bitmap[..]), PageOf(ptr, hhdmOffset)))
    {
      if ptr == 0 {
        return;
      }
      var addr := Wrap64(ptr - hhdmOffset);
      var startPage := addr / PAGE_SIZE;
      ClearPages(startPage, count);
    }

    /** The loop of pmm_free: clears pages start .. start+count-1, counting each one that was set. */
    method ClearPages(start: nat, count: nat)
      requires start + count <= 8 * bitmap.Length
      modifies bitmap, this`usedPages
      ensures bitmap[..] == SetRange(old(bitmap[..]), start, count, false)
      ensures usedPages == old(usedPages) - (CountSet(old(bitmap[..]), start + count) - CountSet(old(bitmap[..]), start))
    {
      ghost var m, used := bitmap[..], usedPages;
      var i, b := 0, start;
      while i < count
        invariant 0 <= i <= count && b == start + i
        invariant bitmap[..] == SetRange(m, start, i, false)
        invariant usedPages + CountSet(m, b) == used + CountSet(m, start)
      {
        ClearNext(m, start, i, b);
        i, b := i + 1, b + 1;
      }
      assert i == count && b == start + count;
    }

    /** One turn of pmm_free's loop, at page b = start + i, stated against the map before the loop. */
    method ClearNext(ghost m: seq<bv8>, start: nat, i: nat, b: nat)
      requires b == start + i && b < 8 * |m| && |m| == bitmap.Length
      requires bitmap[..] == SetRange(m, start, i, false)
      modifies bitmap, this`usedPages
      ensures bitmap[..] == SetRange(m, start, i + 1, false)
      ensures usedPages + CountSet(m, b + 1) == old(usedPages) + CountSet(m, b)
    {
      ClearStep(m, start, i);
      ClearIfSet(b);
    }

    /** The body of pmm_free's loop: a set bit is cleared and counted; a clear bit is left alone. */
    method ClearIfSet(b: nat)
      requires b < 8 * bitmap.Length
      modifies bitmap, this`usedPages
      ensures bitmap[..] == With(old(bitmap[..]), b, false)
      ensures usedPages == old(usedPages) - B2N(Test(old(bitmap[..]), b))
    {
      if CheckBit(bitmap[..], b) != 0 {
        UnsetBit(bitmap, b);
        usedPages := usedPages - 1;
      } else {
        WithUnchanged(bitmap[..], b, false);
      }
    }
  }
}
