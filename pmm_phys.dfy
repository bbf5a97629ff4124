/**
 * The physical frame allocator of mm/pmm.c: a bitmap with one bit per
 * 4 KiB frame (set = used), sized from the memory map, first-fit
 * allocation returning physical addresses, no page accounting.
 */
module PhysPmm {
  import opened Machine
  import opened Wrappers
  import opened Limine
  import opened Bitmap
  import opened FirstFit

  /** The highest base + length over all entries, of any type (the scan at mm/pmm.c:37-41). */
  function HighestTop(es: seq<MemmapEntry>): (r: u64)
    ensures forall i :: 0 <= i < |es| ==> Top(es[i]) <= r
    ensures |es| == 0 ==> r == 0
    ensures |es| > 0 ==> exists i :: 0 <= i < |es| && r == Top(es[i])
  {
    if |es| == 0 then 0
    else
      var rest := HighestTop(es[..|es| - 1]);
      assert forall i :: 0 <= i < |es| - 1 ==> es[..|es| - 1][i] == es[i];
      if Top(es[|es| - 1]) > rest then Top(es[|es| - 1]) else rest
  }

  /** bitmap_size as written: ALIGN_UP(total_pages / 8, PAGE_SIZE), which rounds the bit count down. */
  function BitmapSizeAsWritten(totalPages: nat): (r: nat)
    ensures r % PAGE_SIZE == 0
  { AlignPage(totalPages / 8) }

  /** With 32769 frames the as-written bitmap has 4096 bytes, 32768 bits: frame 32768 has no bit. */
  lemma BitmapSizeAsWrittenTooSmall()
    ensures BitmapSizeAsWritten(32769) == 4096
    ensures 8 * BitmapSizeAsWritten(32769) < 32769
  {
    assert 32769 / 8 == 4096;
  }

  /** The bitmap size the allocator needs: a bit for every frame, rounded up to whole pages. */
  function BitmapSize(totalPages: nat): (r: nat)
    ensures 8 * r >= totalPages
    ensures r % PAGE_SIZE == 0
    ensures r < totalPages / 8 + 1 + PAGE_SIZE
  { AlignPage((totalPages + 7) / 8) }

  /** Frame j lies in [base / PAGE_SIZE, (base + length) / PAGE_SIZE) of some usable entry. */
  predicate FreedByInit(es: seq<MemmapEntry>, j: nat)
  {
    |es| > 0 &&
      (FreedByInit(es[..|es| - 1], j) ||
       (es[|es| - 1].kind == MEMMAP_USABLE && es[|es| - 1].base / PAGE_SIZE <= j < Top(es[|es| - 1]) / PAGE_SIZE))
  }

  /** Adding entry i to the entries already scanned frees exactly its frames in addition. */
  lemma FreedStep(es: seq<MemmapEntry>, i: nat, j: nat)
    requires i < |es|
    ensures FreedByInit(es[..i + 1], j) ==
      (FreedByInit(es[..i], j) ||
       (es[i].kind == MEMMAP_USABLE && es[i].base / PAGE_SIZE <= j < Top(es[i]) / PAGE_SIZE))
  {
    assert es[..i + 1][..i] == es[..i];
  }

  /**
   * Every frame of every usable entry is free after init. This includes the
   * frames that hold the bitmap itself, and frame 0 when a usable entry
   * starts at 0: neither is reserved again.
   */
  lemma {:induction false} UsableFramesFreed(es: seq<MemmapEntry>, k: nat, j: nat)
    requires k < |es| && es[k].kind == MEMMAP_USABLE
    requires es[k].base / PAGE_SIZE <= j < Top(es[k]) / PAGE_SIZE
    ensures FreedByInit(es, j)
  {
    if k < |es| - 1 {
      assert es[..|es| - 1][k] == es[k];
      UsableFramesFreed(es[..|es| - 1], k, j);
    }
  }

  /** A frame that no usable entry covers stays used after init. */
  lemma {:induction false} UncoveredFramesUsed(es: seq<MemmapEntry>, j: nat)
    requires forall k :: 0 <= k < |es| && es[k].kind == MEMMAP_USABLE ==>
      !(es[k].base / PAGE_SIZE <= j < Top(es[k]) / PAGE_SIZE)
    ensures !FreedByInit(es, j)
  {
    if |es| > 0 {
      assert forall k :: 0 <= k < |es| - 1 ==> es[..|es| - 1][k] == es[k];
      UncoveredFramesUsed(es[..|es| - 1], j);
    }
  }

  class FrameAllocator {
    /** The bitmap (mm/pmm.c:13-14), one bit per frame; bit set means used. */
    var bitmap: array<bv8>
    /** total_pages: the number of frames the allocator searches. */
    var totalPages: nat
    /** The physical base of the entry that holds the bitmap. */
    var bitmapBase: u64

    ghost predicate Valid()
      reads this
    {
      totalPages <= 8 * bitmap.Length && totalPages * PAGE_SIZE < U64_LIMIT
    }

    /** The allocator before pmm_init: no bitmap and no frames. */
    constructor ()
      ensures Valid() && totalPages == 0 && bitmap.Length == 0
    {
      bitmap := new bv8[0];
      totalPages := 0;
      bitmapBase := 0;
    }

    /**
     * pmm_init. A missing memory map leaves the allocator as it was.
     * Otherwise bitmap bit j is clear exactly when frame j is inside a
     * usable entry; every other bit, up to the bitmap's end, is set.
     */
    method Init(response: Option<seq<MemmapEntry>>)
      requires Valid()
      requires response.Some? ==>
        HasHome(response.value, BitmapSize(HighestTop(response.value) / PAGE_SIZE))
      modifies this
      ensures Valid()
      ensures response.None? ==>
        bitmap == old(bitmap) && totalPages == old(totalPages) && bitmapBase == old(bitmapBase)
      ensures response.Some? ==>
        var es := response.value;
        totalPages == HighestTop(es) / PAGE_SIZE && fresh(bitmap) &&
        bitmap.Length == BitmapSize(totalPages) &&
        (exists k: nat :: IsFirstHome(es, bitmap.Length, k) && bitmapBase == es[k].base) &&
        forall j :: 0 <= j < 8 * bitmap.Length ==> Test(bitmap[..], j) == !FreedByInit(es, j)
    {
      if response.None? {
        return;
      }
      var es := response.value;
      var highest := ScanHighest(es);
      totalPages := highest / PAGE_SIZE;
      assert totalPages * PAGE_SIZE <= highest;
      var size := BitmapSize(totalPages);
      var k := FindHome(es, size);
      bitmapBase := es[k].base;
      bitmap := new bv8[size](_ => 0xFF);
      AllOnes(bitmap[..]);

      ClearUsable(es, highest);
    }

    /** The third loop of pmm_init: clears the frames of every usable entry. */
    method ClearUsable(es: seq<MemmapEntry>, highest: u64)
      requires highest == HighestTop(es) && totalPages == highest / PAGE_SIZE
      requires totalPages <= 8 * bitmap.Length
      requires forall j :: 0 <= j < 8 * bitmap.Length ==> Test(bitmap[..], j)
      modifies bitmap
      ensures forall j :: 0 <= j < 8 * bitmap.Length ==> Test(bitmap[..], j) == !FreedByInit(es, j)
    {
      var i := 0;
      while i < |es|
        invariant 0 <= i <= |es|
        invariant forall j :: 0 <= j < 8 * bitmap.Length ==> Test(bitmap[..], j) == !FreedByInit(es[..i], j)
      {
        if es[i].kind == MEMMAP_USABLE {
          var startFrame := es[i].base / PAGE_SIZE;
          var endFrame := Top(es[i]) / PAGE_SIZE;
          assert endFrame <= totalPages by {
            assert Top(es[i]) <= highest;
          }
          UnsetFrames(startFrame, endFrame);
        }
        forall j | 0 <= j < 8 * bitmap.Length ensures Test(bitmap[..], j) == !FreedByInit(es[..i + 1], j) {
          FreedStep(es, i, j);
        }
        i := i + 1;
      }
      assert es[..|es|] == es;
    }

    /** The first loop of pmm_init: the highest top over all entries. */
    static method ScanHighest(es: seq<MemmapEntry>) returns (highest: u64)
      ensures highest == HighestTop(es)
    {
      highest := 0;
      var i := 0;
      while i < |es|
        invariant 0 <= i <= |es|
        invariant highest == HighestTop(es[..i])
      {
        assert es[..i + 1][..i] == es[..i];
        var top := Top(es[i]);
        if top > highest {
          highest := top;
        }
        i := i + 1;
      }
      assert es[..|es|] == es;
    }

    /** The inner loop of pmm_init: clears the bits of frames start .. end-1. */
    method UnsetFrames(startFrame: nat, endFrame: nat)
      requires endFrame <= 8 * bitmap.Length
      modifies bitmap
      ensures forall b :: 0 <= b < 8 * bitmap.Length ==>
        Test(bitmap[..], b) == (Test(old(bitmap[..]), b) && !(startFrame <= b < endFrame))
    {
      ghost var m := bitmap[..];
      var j := startFrame;
      while j < endFrame
        invariant startFrame <= j && (j <= endFrame || j == startFrame)
        invariant forall b :: 0 <= b < 8 * bitmap.Length ==>
          Test(bitmap[..], b) == (Test(m, b) && !(startFrame <= b < j))
      {
        ghost var before := bitmap[..];
        UnsetBit(bitmap, j);
        forall b | 0 <= b < 8 * bitmap.Length
          ensures Test(bitmap[..], b) == (Test(m, b) && !(startFrame <= b < j + 1))
        {
          if b == j { WithSame(before, j, false); } else { WithOther(before, j, false, b); }
        }
        j := j + 1;
      }
    }

    /**
     * pmm_alloc(count): first fit. When a clear run of `count` frames
     * exists, the lowest one is marked used and its physical address is
     * returned; otherwise, and always for count = 0, the result is NULL
     * and nothing changes. A run at frame 0 yields address 0, which the
     * caller cannot tell apart from NULL.
     */
    method Alloc(count: nat) returns (addr: u64)
      requires Valid()
      modifies bitmap
      ensures match Search(old(bitmap[..]), totalPages, count)
        case Some(s) => addr == s * PAGE_SIZE && bitmap[..] == SetRange(old(bitmap[..]), s, count, true)
        case None => addr == 0 && bitmap[..] == old(bitmap[..])
    {
      var found, start := FindRun(bitmap, totalPages, count);
      if found {
        SetFrames(start, count);
        return start * PAGE_SIZE;
      }
      return 0;
    }

    /** The marking loop of pmm_alloc: sets the bits of frames start .. start+count-1. */
    method SetFrames(start: nat, count: nat)
      requires start + count <= 8 * bitmap.Length
      modifies bitmap
      ensures bitmap[..] == SetRange(old(bitmap[..]), start, count, true)
    {
      ghost var m := bitmap[..];
      var j := start;
      while j < start + count
        invariant start <= j <= start + count
        invariant bitmap[..] == SetRange(m, start, j - start, true)
      {
        SetBit(bitmap, j);
        SetRangeSnoc(m, start, j - start, true);
        j := j + 1;
      }
    }

    /** pmm_free(paddr, count): clears the bits of `count` frames from paddr's frame on, set or not. */
    method Free(paddr: u64, count: nat)
      requires Valid()
      requires paddr / PAGE_SIZE + count <= 8 * bitmap.Length
      modifies bitmap
      ensures bitmap[..] == SetRange(old(bitmap[..]), paddr / PAGE_SIZE, count, false)
    {
      ghost var m := bitmap[..];
      var frame := paddr / PAGE_SIZE;
      var i := frame;
      while i < frame + count
        invariant frame <= i <= frame + count
        invariant bitmap[..] == SetRange(m, frame, i - frame, false)
      {
        UnsetBit(bitmap, i);
        SetRangeSnoc(m, frame, i - frame, false);
        i := i + 1;
      }
    }
  }
}
