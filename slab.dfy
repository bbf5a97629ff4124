/**
 * The power-of-two slab allocator of src/kernel/memory/slab.c.
 *
 * Slab i serves objects of 2^(i+1) bytes, i = 0 .. 10, and owns one
 * 2048-byte block carved out of pages from pmm_alloc(1). Each slab keeps
 * an array of 1024 object pointers: a non-NULL entry is an object that
 * may be handed out, and NULL (0) marks a slot whose object is in use.
 * Requests above 2048 bytes are passed on to the page allocator.
 */
module Slab {
  import opened Machine
  import opened Wrappers

  const SLAB_COUNT: nat := 11
  const MAX_SLAB_SIZE: nat := 2048
  const MAX_OBJECTS_PER_SLAB: nat := 1024

  /** slab_t: its address range, object size, full flag and object pointers (0 is NULL). */
  datatype Slab = Slab(start: u64, end: u64, size: u64, isFull: bool, objects: seq<u64>)

  /** What slab_alloc returns: NULL, an object, or whatever pmm_alloc(count) gives for a large request. */
  datatype Grant = Null | Object(ptr: u64) | Pages(count: u64)

  function Pow2(k: nat): (r: nat)
    ensures r >= 1
  {
    if k == 0 then 1 else 2 * Pow2(k - 1)
  }

  /** The object size of slab i, (uint64_t)1 << (i + 1). */
  function ClassSize(i: nat): nat
  {
    Pow2(i + 1)
  }

  /** objects_per_slab: MAX_SLAB_SIZE / size. */
  function PerSlab(size: nat): nat
    requires size > 0
  {
    MAX_SLAB_SIZE / size
  }

  /** Every class size lies in 2 .. 2048 and divides the 2048-byte block exactly. */
  lemma ClassSizeFacts(i: nat)
    requires i < SLAB_COUNT
    ensures 2 <= ClassSize(i) <= MAX_SLAB_SIZE
    ensures PerSlab(ClassSize(i)) * ClassSize(i) == MAX_SLAB_SIZE
    ensures PerSlab(ClassSize(i)) <= MAX_OBJECTS_PER_SLAB
  {
    ClassSizeValue(i);
    if i == 0 { assert PerSlab(2) == 1024; }
    else if i == 1 { assert PerSlab(4) == 512; }
    else if i == 2 { assert PerSlab(8) == 256; }
    else if i == 3 { assert PerSlab(16) == 128; }
    else if i == 4 { assert PerSlab(32) == 64; }
    else if i == 5 { assert PerSlab(64) == 32; }
    else if i == 6 { assert PerSlab(128) == 16; }
    else if i == 7 { assert PerSlab(256) == 8; }
    else if i == 8 { assert PerSlab(512) == 4; }
    else if i == 9 { assert PerSlab(1024) == 2; }
    else { assert PerSlab(2048) == 1; }
  }

  /** The eleven class sizes, 2 up to 2048. */
  lemma ClassSizeValue(i: nat)
    requires i < SLAB_COUNT
    ensures ClassSize(i) == [2, 4, 8, 16, 32, 64, 128, 256, 512, 1024, 2048][i]
  {
    if i > 0 {
      ClassSizeValue(i - 1);
    }
  }

  /** Class sizes double from one slab to the next. */
  lemma ClassSizeStep(i: nat)
    ensures ClassSize(i + 1) == 2 * ClassSize(i)
  {
  }

  // ---------------------------------------------------------------------
  // Size-class selection
  // ---------------------------------------------------------------------

  /** The class the selection loop of slab_alloc stops at, scanning from class i. */
  function ClassFrom(size: nat, i: nat): (r: nat)
    requires i < SLAB_COUNT
    decreases SLAB_COUNT - i
  {
    if ClassSize(i) < size && i < SLAB_COUNT - 1 then ClassFrom(size, i + 1) else i
  }

  /** The size class of a request. */
  function ClassOf(size: nat): nat
  {
    ClassFrom(size, 0)
  }

  lemma {:induction false} ClassFromFacts(size: nat, i: nat)
    requires i < SLAB_COUNT
    requires i > 0 ==> ClassSize(i - 1) < size
    ensures ClassFrom(size, i) < SLAB_COUNT
    ensures size <= MAX_SLAB_SIZE ==> size <= ClassSize(ClassFrom(size, i))
    ensures ClassFrom(size, i) > 0 ==> ClassSize(ClassFrom(size, i) - 1) < size
    decreases SLAB_COUNT - i
  {
    if ClassSize(i) < size && i < SLAB_COUNT - 1 {
      ClassFromFacts(size, i + 1);
    } else if i == SLAB_COUNT - 1 {
      ClassSizeFacts(i);
    }
  }

  /**
   * The class is the smallest power of two of at least 2 that holds the
   * request; a request above 2048 bytes stops at the last class.
   */
  lemma ClassOfIsSmallest(size: nat)
    ensures ClassOf(size) < SLAB_COUNT
    ensures size <= MAX_SLAB_SIZE ==> size <= ClassSize(ClassOf(size))
    ensures ClassOf(size) > 0 ==> ClassSize(ClassOf(size) - 1) < size
    ensures size > MAX_SLAB_SIZE ==> ClassOf(size) == SLAB_COUNT - 1
  {
    ClassFromFacts(size, 0);
    if size > MAX_SLAB_SIZE {
      var c := ClassOf(size);
      if c < SLAB_COUNT - 1 {
        ClassSizeFacts(c);
        assert ClassFrom(size, c) == c;
        ClassFromStops(size, 0);
        assert false;
      }
    }
  }

  /** Where the scan stops, the class holds the request unless it is the last one. */
  lemma {:induction false} ClassFromStops(size: nat, i: nat)
    requires i < SLAB_COUNT
    ensures ClassFrom(size, i) == SLAB_COUNT - 1 || size <= ClassSize(ClassFrom(size, i))
    decreases SLAB_COUNT - i
  {
    if ClassSize(i) < size && i < SLAB_COUNT - 1 {
      ClassFromStops(size, i + 1);
    }
  }

  // ---------------------------------------------------------------------
  // Slot search
  // ---------------------------------------------------------------------

  /** find_free_object: the first of the first n slots, from `from` on, that is non-NULL. */
  function FirstNonNull(objs: seq<u64>, n: nat, from: nat): (r: Option<nat>)
    requires from <= n <= |objs|
    decreases n - from
  {
    if from == n then None
    else if objs[from] != 0 then Some(from)
    else FirstNonNull(objs, n, from + 1)
  }

  lemma {:induction false} FirstNonNullFrom(objs: seq<u64>, n: nat, from: nat)
    requires from <= n <= |objs|
    ensures FirstNonNull(objs, n, from).None? <==> forall k :: from <= k < n ==> objs[k] == 0
    ensures FirstNonNull(objs, n, from).Some? ==>
      var j := FirstNonNull(objs, n, from).value;
      from <= j < n && objs[j] != 0 && forall k :: from <= k < j ==> objs[k] == 0
    decreases n - from
  {
    if from < n && objs[from] == 0 {
      FirstNonNullFrom(objs, n, from + 1);
    }
  }

  /** The search finds the lowest non-NULL slot, and fails exactly when every slot is NULL. */
  lemma FirstNonNullIsLowest(objs: seq<u64>, n: nat)
    requires n <= |objs|
    ensures FirstNonNull(objs, n, 0).None? <==> forall k :: 0 <= k < n ==> objs[k] == 0
    ensures FirstNonNull(objs, n, 0).Some? ==>
      var j := FirstNonNull(objs, n, 0).value;
      j < n && objs[j] != 0 && forall k :: 0 <= k < j ==> objs[k] == 0
  {
    FirstNonNullFrom(objs, n, 0);
  }

  // ---------------------------------------------------------------------
  // The slab table as a value
  // ---------------------------------------------------------------------

  /**
   * Slab i's shape after slab_init: its class size, whose objects fit the
   * 1024 slots, and end = start + 2048 - size.
   */
  ghost predicate SlabShaped(s: Slab, i: nat)
  {
    s.size == ClassSize(i) && 2 <= s.size && PerSlab(s.size) <= MAX_OBJECTS_PER_SLAB &&
    |s.objects| == MAX_OBJECTS_PER_SLAB &&
    0 < s.start && s.end == s.start + MAX_SLAB_SIZE - s.size
  }

  /** The shape slab_init gives the whole table. */
  ghost predicate Shaped(ss: seq<Slab>)
  {
    |ss| == SLAB_COUNT && forall i :: 0 <= i < SLAB_COUNT ==> SlabShaped(ss[i], i)
  }

  /** The address of object j of a slab. */
  function Home(s: Slab, j: nat): int
  {
    s.start + j * s.size
  }

  /** Every non-NULL slot of the slab holds its own object. */
  ghost predicate AtHome(s: Slab)
  {
    s.size > 0 &&
    forall j :: 0 <= j < PerSlab(s.size) && j < |s.objects| ==> s.objects[j] == 0 || s.objects[j] == Home(s, j)
  }

  /** Two slabs' address ranges do not overlap. */
  ghost predicate Apart(s: Slab, t: Slab)
  {
    s.end < t.start || t.end < s.start
  }

  /** Every non-NULL slot holds its own object, and the slabs' ranges do not overlap. */
  ghost predicate Valid(ss: seq<Slab>)
  {
    Shaped(ss) &&
    (forall i :: 0 <= i < SLAB_COUNT ==> AtHome(ss[i])) &&
    (forall i, k :: 0 <= i < SLAB_COUNT && 0 <= k < SLAB_COUNT && i != k ==> Apart(ss[i], ss[k]))
  }

  /** Replacing a slab by one with the same range whose slots are at home keeps the table valid. */
  lemma ReplaceKeepsValid(ss: seq<Slab>, i: nat, t: Slab)
    requires Valid(ss) && i < SLAB_COUNT && AtHome(t)
    requires t.start == ss[i].start && t.end == ss[i].end && t.size == ss[i].size && |t.objects| == |ss[i].objects|
    ensures Valid(ss[i := t])
  {
    var ss' := ss[i := t];
    forall k | 0 <= k < SLAB_COUNT ensures SlabShaped(ss'[k], k) && AtHome(ss'[k]) {
      if k != i { assert ss'[k] == ss[k]; }
    }
    forall a, b | 0 <= a < SLAB_COUNT && 0 <= b < SLAB_COUNT && a != b ensures Apart(ss'[a], ss'[b]) {
      assert Apart(ss[a], ss[b]);
    }
  }

  /** The objects a table can still hand out. */
  ghost predicate Offers(ss: seq<Slab>, p: u64)
    requires Shaped(ss)
  {
    exists i, j :: 0 <= i < SLAB_COUNT && 0 <= j < PerSlab(ss[i].size) && ss[i].objects[j] == p && p != 0
  }

  /** slab_alloc on a table: the new table and the result. */
  function AllocSpec(ss: seq<Slab>, size: u64): (r: (seq<Slab>, Grant))
    requires Shaped(ss)
    ensures Shaped(r.0)
  {
    var i := ClassOf(size);
    ClassOfIsSmallest(size);
    if size > MAX_SLAB_SIZE then (ss, Pages(Wrap64(size + PAGE_SIZE - 1) / PAGE_SIZE))
    else if ss[i].isFull then (ss, Null)
    else
      ClassSizeFacts(i);
      match FirstNonNull(ss[i].objects, PerSlab(ss[i].size), 0)
      case None => (ss[i := ss[i].(isFull := true)], Null)
      case Some(j) =>
        FirstNonNullIsLowest(ss[i].objects, PerSlab(ss[i].size));
        (ss[i := ss[i].(objects := ss[i].objects[j := 0])], Object(ss[i].objects[j]))
  }

  /** slab_free's test of one slab: ptr is in its range and on an object boundary. */
  predicate Accepts(s: Slab, p: u64)
    requires s.size > 0
  {
    s.start <= p <= s.end && (p - s.start) % s.size == 0
  }

  /** Stores p back into the slot of slab i that its offset names, and clears is_full. */
  function Put(ss: seq<Slab>, i: nat, p: u64): (r: seq<Slab>)
    requires Shaped(ss) && i < SLAB_COUNT && Accepts(ss[i], p)
    ensures Shaped(r)
  {
    var k := (p - ss[i].start) / ss[i].size;
    SlotIndexBound(ss, i, p);
    ss[i := ss[i].(objects := ss[i].objects[k := p], isFull := false)]
  }

  /** The first slab, from i on, that accepts p takes it back; with none, nothing changes. */
  function FreeFrom(ss: seq<Slab>, p: u64, i: nat): (r: seq<Slab>)
    requires Shaped(ss) && i <= SLAB_COUNT
    ensures Shaped(r)
    decreases SLAB_COUNT - i
  {
    if i == SLAB_COUNT then ss
    else if Accepts(ss[i], p) then Put(ss, i, p)
    else FreeFrom(ss, p, i + 1)
  }

  /** slab_free on a table: NULL is ignored. */
  function FreeSpec(ss: seq<Slab>, p: u64): (r: seq<Slab>)
    requires Shaped(ss)
    ensures Shaped(r)
  {
    if p == 0 then ss else FreeFrom(ss, p, 0)
  }

  /** The slot an accepted pointer goes back to is one of the slab's objects. */
  lemma SlotIndexBound(ss: seq<Slab>, i: nat, p: u64)
    requires Shaped(ss) && i < SLAB_COUNT && Accepts(ss[i], p)
    ensures (p - ss[i].start) / ss[i].size < PerSlab(ss[i].size) <= MAX_OBJECTS_PER_SLAB
    ensures p == Home(ss[i], (p - ss[i].start) / ss[i].size)
  {
    var size := ss[i].size;
    var off := p - ss[i].start;
    var k := off / size;
    ClassSizeFacts(i);
    assert off == k * size;
    var n := PerSlab(size);
    MulStrictLess(k, n, size);
  }

  lemma MulStrictLess(q: int, n: int, size: int)
    requires size > 0 && q * size < n * size
    ensures q < n
  {
  }

  lemma SmallMultiple(d: int, size: int)
    requires size > 0 && 0 <= size * d < size
    ensures d == 0
  {
  }

  /** A multiple of the size is on an object boundary, and names that object. */
  lemma MultipleOfSize(j: nat, size: nat)
    requires size > 0
    ensures (j * size) % size == 0 && (j * size) / size == j
  {
    var q := (j * size) / size;
    var r := (j * size) % size;
    assert size * (j - q) == r;
    SmallMultiple(j - q, size);
  }

  /** Object j of a slab lies inside its range. */
  lemma HomeInRange(ss: seq<Slab>, i: nat, j: nat)
    requires Shaped(ss) && i < SLAB_COUNT && j < PerSlab(ss[i].size)
    ensures ss[i].start <= Home(ss[i], j) <= ss[i].end
    ensures Home(ss[i], j) != 0
  {
    var size := ss[i].size;
    ClassSizeFacts(i);
    assert j + 1 <= PerSlab(size);
    assert (j + 1) * size <= PerSlab(size) * size;
  }

  /** Object j of a block cut into n objects of the given size ends inside the block. */
  lemma ObjectFits(j: nat, n: nat, size: nat)
    requires j < n && n * size == MAX_SLAB_SIZE
    ensures (j + 1) * size == j * size + size && j * size + size <= MAX_SLAB_SIZE
  {
    assert (j + 1) * size <= n * size;
  }

  /** Two different objects of one slab lie at different addresses. */
  lemma HomeInjective(s: Slab, j: nat, k: nat)
    requires s.size > 0 && j != k
    ensures Home(s, j) != Home(s, k)
  {
    if j < k {
      assert (k - j) * s.size > 0;
    } else {
      assert (j - k) * s.size > 0;
    }
  }

  /** Object j of a slab is accepted by that slab, and its offset names slot j. */
  lemma HomeAccepted(ss: seq<Slab>, i: nat, j: nat, p: u64)
    requires Shaped(ss) && i < SLAB_COUNT && j < PerSlab(ss[i].size) && p == Home(ss[i], j)
    ensures Accepts(ss[i], p) && (p - ss[i].start) / ss[i].size == j
  {
    HomeInRange(ss, i, j);
    MultipleOfSize(j, ss[i].size);
  }

  /** In a valid table only the slab whose range holds a pointer accepts it. */
  lemma {:induction false} FreeFindsSlab(ss: seq<Slab>, i: nat, p: u64, from: nat)
    requires Valid(ss) && i < SLAB_COUNT && Accepts(ss[i], p) && from <= i
    ensures FreeFrom(ss, p, from) == Put(ss, i, p)
    decreases i - from
  {
    if from < i {
      assert Apart(ss[i], ss[from]);
      FreeFindsSlab(ss, i, p, from + 1);
    }
  }

  // ---------------------------------------------------------------------
  // Properties of allocation and release
  // ---------------------------------------------------------------------

  /** Releasing NULL, or a pointer no slab accepts, leaves the table as it was. */
  lemma FreeIgnoresForeign(ss: seq<Slab>, p: u64)
    requires Shaped(ss)
    requires p == 0 || forall i :: 0 <= i < SLAB_COUNT ==> !Accepts(ss[i], p)
    ensures FreeSpec(ss, p) == ss
  {
    if p != 0 {
      FreeFromForeign(ss, p, 0);
    }
  }

  lemma {:induction false} FreeFromForeign(ss: seq<Slab>, p: u64, from: nat)
    requires Shaped(ss) && from <= SLAB_COUNT
    requires forall i :: 0 <= i < SLAB_COUNT ==> !Accepts(ss[i], p)
    ensures FreeFrom(ss, p, from) == ss
    decreases SLAB_COUNT - from
  {
    if from < SLAB_COUNT {
      FreeFromForeign(ss, p, from + 1);
    }
  }

  /**
   * In a valid table a pointer that some slab accepts goes back into that
   * slab, at slot (ptr - start) / size, and the slab is no longer full.
   */
  lemma FreeStoresAtOffset(ss: seq<Slab>, i: nat, p: u64)
    requires Valid(ss) && i < SLAB_COUNT && Accepts(ss[i], p)
    ensures FreeSpec(ss, p) == ss[i := ss[i].(objects := ss[i].objects[(p - ss[i].start) / ss[i].size := p], isFull := false)]
  {
    FreeFindsSlab(ss, i, p, 0);
  }

  /** slab_alloc keeps the table valid. */
  lemma AllocKeepsValid(ss: seq<Slab>, size: u64)
    requires Valid(ss)
    ensures Valid(AllocSpec(ss, size).0)
  {
    var i := ClassOf(size);
    ClassOfIsSmallest(size);
    if size <= MAX_SLAB_SIZE && !ss[i].isFull {
      ClassSizeFacts(i);
      assert SlabShaped(ss[i], i) && AtHome(ss[i]);
      FirstNonNullIsLowest(ss[i].objects, PerSlab(ss[i].size));
      match FirstNonNull(ss[i].objects, PerSlab(ss[i].size), 0)
      case None =>
        ReplaceKeepsValid(ss, i, ss[i].(isFull := true));
      case Some(j) =>
        var t := ss[i].(objects := ss[i].objects[j := 0]);
        assert AtHome(t);
        ReplaceKeepsValid(ss, i, t);
    }
  }

  /** Storing an object back into its own slot keeps the slab's slots at home. */
  lemma PutAtHome(s: Slab, k: nat, p: u64)
    requires AtHome(s) && k < |s.objects| && p == Home(s, k)
    ensures AtHome(s.(objects := s.objects[k := p], isFull := false))
  {
  }

  /** Taking an accepted pointer back keeps the table valid. */
  lemma PutKeepsValid(ss: seq<Slab>, i: nat, p: u64)
    requires Valid(ss) && i < SLAB_COUNT && Accepts(ss[i], p)
    ensures Valid(Put(ss, i, p))
  {
    SlotIndexBound(ss, i, p);
    assert SlabShaped(ss[i], i) && AtHome(ss[i]);
    DivNonNegative(p - ss[i].start, ss[i].size);
    var k := (p - ss[i].start) / ss[i].size;
    PutAtHome(ss[i], k, p);
    ReplaceKeepsValid(ss, i, ss[i].(objects := ss[i].objects[k := p], isFull := false));
  }

  /** slab_free keeps the table valid: a pointer accepted goes back to its own slot. */
  lemma FreeKeepsValid(ss: seq<Slab>, p: u64)
    requires Valid(ss)
    ensures Valid(FreeSpec(ss, p))
  {
    if p != 0 {
      if i :| 0 <= i < SLAB_COUNT && Accepts(ss[i], p) {
        FreeFindsSlab(ss, i, p, 0);
        PutKeepsValid(ss, i, p);
      } else {
        FreeIgnoresForeign(ss, p);
      }
    }
  }

  /**
   * A successful slab_alloc hands out an object the table offered, the
   * lowest free slot of the request's class, and afterwards no slot of any
   * slab holds that pointer.
   */
  lemma AllocHandsOutOnce(ss: seq<Slab>, size: u64)
    requires Valid(ss)
    ensures AllocSpec(ss, size).1.Object? ==>
      var p := AllocSpec(ss, size).1.ptr;
      Offers(ss, p) && !Offers(AllocSpec(ss, size).0, p)
  {
    var (ss', g) := AllocSpec(ss, size);
    if g.Object? {
      var i := ClassOf(size);
      ClassOfIsSmallest(size);
      ClassSizeFacts(i);
      var n := PerSlab(ss[i].size);
      FirstNonNullIsLowest(ss[i].objects, n);
      var j := FirstNonNull(ss[i].objects, n, 0).value;
      var p := g.ptr;
      assert AtHome(ss[i]);
      assert ss[i].objects[j] == p != 0;
      assert Offers(ss, p);
      if Offers(ss', p) {
        var a, b :| 0 <= a < SLAB_COUNT && 0 <= b < PerSlab(ss'[a].size) && ss'[a].objects[b] == p && p != 0;
        if a == i && b == j {
          assert false;
        }
        assert ss[a].objects[b] == p;
        SlotIsUnique(ss, i, j, a, b);
      }
    }
  }

  /** In a valid table no two slots hold the same object. */
  lemma SlotIsUnique(ss: seq<Slab>, i: nat, j: nat, a: nat, b: nat)
    requires Valid(ss) && i < SLAB_COUNT && a < SLAB_COUNT
    requires j < PerSlab(ss[i].size) && b < PerSlab(ss[a].size)
    requires ss[i].objects[j] != 0 && ss[a].objects[b] == ss[i].objects[j]
    ensures a == i && b == j
  {
    assert AtHome(ss[i]) && AtHome(ss[a]);
    HomeInRange(ss, a, b);
    HomeInRange(ss, i, j);
    if a == i && b != j {
      HomeInjective(ss[i], b, j);
    }
  }

  /** Two successful slab_allocs in a row never return the same object. */
  lemma AllocTwiceDistinct(ss: seq<Slab>, a: u64, b: u64)
    requires Valid(ss)
    ensures var (t, g) := AllocSpec(ss, a);
      var (_, h) := AllocSpec(t, b);
      g.Object? && h.Object? ==> g.ptr != h.ptr
  {
    var (t, g) := AllocSpec(ss, a);
    AllocHandsOutOnce(ss, a);
    AllocKeepsValid(ss, a);
    AllocHandsOutOnce(t, b);
  }

  /** Releasing the object slab_alloc just returned gives back the table as it was. */
  lemma AllocThenFreeRestores(ss: seq<Slab>, size: u64)
    requires Valid(ss)
    ensures AllocSpec(ss, size).1.Object? ==>
      FreeSpec(AllocSpec(ss, size).0, AllocSpec(ss, size).1.ptr) == ss
  {
    var (t, g) := AllocSpec(ss, size);
    if g.Object? {
      var i := ClassOf(size);
      ClassOfIsSmallest(size);
      ClassSizeFacts(i);
      var n := PerSlab(ss[i].size);
      FirstNonNullIsLowest(ss[i].objects, n);
      var j := FirstNonNull(ss[i].objects, n, 0).value;
      assert AtHome(ss[i]);
      assert g.ptr == Home(t[i], j);
      AllocKeepsValid(ss, size);
      HomeAccepted(t, i, j, g.ptr);
      FreeStoresAtOffset(t, i, g.ptr);
      assert t[i].objects[j := g.ptr] == ss[i].objects;
      assert t[i := t[i].(objects := ss[i].objects, isFull := false)] == ss;
    }
  }

  /** A full slab, or one with no object left, refuses every request of its class. */
  lemma FullSlabRefuses(ss: seq<Slab>, size: u64)
    requires Shaped(ss) && size <= MAX_SLAB_SIZE
    requires ss[ClassOf(size)].isFull ||
      forall k :: 0 <= k < PerSlab(ss[ClassOf(size)].size) ==> ss[ClassOf(size)].objects[k] == 0
    ensures AllocSpec(ss, size).1 == Null
    ensures AllocSpec(ss, size).0[ClassOf(size)].isFull
  {
    ClassOfIsSmallest(size);
    ClassSizeFacts(ClassOf(size));
    FirstNonNullIsLowest(ss[ClassOf(size)].objects, PerSlab(ss[ClassOf(size)].size));
  }

  // ---------------------------------------------------------------------
  // The layout slab_init builds
  // ---------------------------------------------------------------------

  /** The page numbers pmm_alloc(1) hands slab_init: non-NULL, aligned, distinct, not at the top of memory. */
  ghost predicate GoodPages(pages: seq<u64>)
  {
    |pages| >= 6 &&
    (forall k :: 0 <= k < 6 ==> 0 < pages[k] && pages[k] % PAGE_SIZE == 0 && pages[k] + PAGE_SIZE < U64_LIMIT) &&
    (forall a, b :: 0 <= a < b < 6 ==> pages[a] != pages[b])
  }

  /** Slab i's block: the lower or upper half of page i / 2. */
  function BlockOf(pages: seq<u64>, i: nat): int
    requires i < SLAB_COUNT && |pages| >= 6
  {
    pages[i / 2] + (i % 2) * MAX_SLAB_SIZE
  }

  /** Slab i as slab_init leaves it when its block starts at base. */
  function InitialSlab(i: nat, base: nat): Slab
    requires i < SLAB_COUNT && 0 < base && base + MAX_SLAB_SIZE < U64_LIMIT
  {
    ClassSizeFacts(i);
    var size := ClassSize(i);
    Slab(base, base + MAX_SLAB_SIZE - size, size, false,
      seq(MAX_OBJECTS_PER_SLAB, k requires 0 <= k < MAX_OBJECTS_PER_SLAB =>
        if k < PerSlab(size) then InitialObject(base, k, size) else 0))
  }

  function InitialObject(base: nat, k: nat, size: nat): (r: u64)
    requires size > 0 && k < PerSlab(size) && PerSlab(size) * size <= MAX_SLAB_SIZE
    requires base + MAX_SLAB_SIZE < U64_LIMIT
  {
    assert k * size < PerSlab(size) * size;
    base + k * size
  }

  /** The table slab_init leaves. */
  function InitialSlabs(pages: seq<u64>): seq<Slab>
    requires GoodPages(pages)
  {
    seq(SLAB_COUNT, i requires 0 <= i < SLAB_COUNT => InitialSlab(i, BlockOf(pages, i)))
  }

  /** Two different aligned pages are a page apart. */
  lemma PagesApart(a: u64, b: u64)
    requires a % PAGE_SIZE == 0 && b % PAGE_SIZE == 0 && a < b
    ensures a + PAGE_SIZE <= b
  {
    assert a == (a / PAGE_SIZE) * PAGE_SIZE;
    assert b == (b / PAGE_SIZE) * PAGE_SIZE;
    assert a / PAGE_SIZE < b / PAGE_SIZE;
  }

  /**
   * After slab_init every slab offers all of its objects, each at its own
   * address, and the slabs occupy disjoint blocks: the table is valid.
   */
  lemma InitIsValid(pages: seq<u64>)
    requires GoodPages(pages)
    ensures Valid(InitialSlabs(pages))
    ensures forall i, j :: 0 <= i < SLAB_COUNT && 0 <= j < PerSlab(ClassSize(i)) ==>
      Offers(InitialSlabs(pages), InitialSlabs(pages)[i].objects[j])
  {
    var ss := InitialSlabs(pages);
    forall i | 0 <= i < SLAB_COUNT
      ensures SlabShaped(ss[i], i) && AtHome(ss[i])
      ensures forall j :: 0 <= j < PerSlab(ss[i].size) ==> ss[i].objects[j] == Home(ss[i], j) != 0
    {
      InitialSlabHome(i, BlockOf(pages, i));
    }
    forall i, k | 0 <= i < SLAB_COUNT && 0 <= k < SLAB_COUNT && i != k
      ensures Apart(ss[i], ss[k])
    {
      BlocksApart(pages, i, k);
    }
  }

  /** A freshly laid out slab has its shape and every object in its own slot. */
  lemma InitialSlabHome(i: nat, base: nat)
    requires i < SLAB_COUNT && 0 < base && base + MAX_SLAB_SIZE < U64_LIMIT
    ensures SlabShaped(InitialSlab(i, base), i) && AtHome(InitialSlab(i, base))
    ensures forall j :: 0 <= j < PerSlab(ClassSize(i)) ==>
      InitialSlab(i, base).objects[j] == Home(InitialSlab(i, base), j) != 0
  {
    ClassSizeFacts(i);
  }

  /** The blocks of two different slabs do not overlap. */
  lemma BlocksApart(pages: seq<u64>, i: nat, k: nat)
    requires GoodPages(pages) && i < SLAB_COUNT && k < SLAB_COUNT && i != k
    ensures Apart(InitialSlab(i, BlockOf(pages, i)), InitialSlab(k, BlockOf(pages, k)))
  {
    ClassSizeFacts(i);
    ClassSizeFacts(k);
    if pages[i / 2] < pages[k / 2] {
      PagesApart(pages[i / 2], pages[k / 2]);
    } else if pages[k / 2] < pages[i / 2] {
      PagesApart(pages[k / 2], pages[i / 2]);
    } else {
      assert i / 2 == k / 2;
    }
  }

  // ---------------------------------------------------------------------
  // The allocator's state
  // ---------------------------------------------------------------------

  class SlabAllocator {
    /** slabs[SLAB_COUNT]. */
    var slabs: array<Slab>
    /** internal_mem_ptr: the next free byte of the page slab_init is carving. */
    var memPtr: u64
    /** internal_mem_len: the end address of that page. */
    var memLen: u64

    ghost predicate Ready()
      reads this, slabs
    {
      slabs.Length == SLAB_COUNT && Shaped(slabs[..])
    }

    /** The zero-initialised statics before slab_init. */
    constructor ()
      ensures slabs.Length == SLAB_COUNT && memPtr == 0 && memLen == 0
      ensures forall i :: 0 <= i < SLAB_COUNT ==> slabs[i] == Slab(0, 0, 0, false, seq(MAX_OBJECTS_PER_SLAB, _ => 0))
    {
      slabs := new Slab[SLAB_COUNT](_ => Slab(0, 0, 0, false, seq(MAX_OBJECTS_PER_SLAB, _ => 0)));
      memPtr := 0;
      memLen := 0;
    }

    /** Where internal_mem_ptr and internal_mem_len stand before slab i is laid out. */
    ghost predicate Cursor(pages: seq<u64>, i: nat, next: nat)
      requires GoodPages(pages) && i <= SLAB_COUNT
      reads this
    {
      next == (i + 1) / 2 &&
      if i == 0 then memPtr == 0 && memLen == 0
      else if i % 2 == 0 then memPtr == memLen == pages[i / 2 - 1] + PAGE_SIZE
      else memPtr == pages[i / 2] + MAX_SLAB_SIZE && memLen == pages[i / 2] + PAGE_SIZE
    }

    /**
     * slab_init, run once on the zeroed statics. pages holds what the
     * successive calls of pmm_alloc(1) return; a new page is taken whenever
     * the carving pointer reaches the end of the current one, so each page
     * holds two slabs' blocks.
     */
    method Init(pages: seq<u64>)
      requires GoodPages(pages) && slabs.Length == SLAB_COUNT && memPtr == 0 && memLen == 0
      requires forall i :: 0 <= i < SLAB_COUNT ==> slabs[i] == Slab(0, 0, 0, false, seq(MAX_OBJECTS_PER_SLAB, _ => 0))
      modifies slabs, this`memPtr, this`memLen
      ensures Ready() && slabs[..] == InitialSlabs(pages)
      ensures memPtr == pages[5] + MAX_SLAB_SIZE && memLen == pages[5] + PAGE_SIZE
    {
      var next := 0;
      var i := 0;
      while i < SLAB_COUNT
        invariant 0 <= i <= SLAB_COUNT && Cursor(pages, i, next)
        invariant forall k :: 0 <= k < i ==> slabs[k] == InitialSlab(k, BlockOf(pages, k))
        invariant forall k :: i <= k < SLAB_COUNT ==> slabs[k] == Slab(0, 0, 0, false, seq(MAX_OBJECTS_PER_SLAB, _ => 0))
      {
        next := InitSlab(pages, i, next);
        i := i + 1;
      }
      assert slabs[..] == InitialSlabs(pages);
      InitIsValid(pages);
    }

    /** One turn of slab_init's outer loop: lays out slab i. */
    method InitSlab(pages: seq<u64>, i: nat, next: nat) returns (next': nat)
      requires GoodPages(pages) && slabs.Length == SLAB_COUNT && i < SLAB_COUNT && Cursor(pages, i, next)
      requires slabs[i] == Slab(0, 0, 0, false, seq(MAX_OBJECTS_PER_SLAB, _ => 0))
      modifies slabs, this`memPtr, this`memLen
      ensures Cursor(pages, i + 1, next')
      ensures slabs[i] == InitialSlab(i, BlockOf(pages, i))
      ensures forall k :: 0 <= k < SLAB_COUNT && k != i ==> slabs[k] == old(slabs[k])
    {
      ClassSizeFacts(i);
      var base := BlockOf(pages, i);
      var page := pages[i / 2];
      var size := ClassSize(i);
      // slabs[i] is built in a local copy; nothing else reads the table meanwhile.
      var s := slabs[i].(size := size as u64, isFull := false);
      var perSlab := MAX_SLAB_SIZE / s.size;
      next' := next;
      var j := 0;
      while j < perSlab
        invariant 0 <= j <= perSlab && s.size == size && !s.isFull
        invariant s.start == 0 && s.end == 0 && |s.objects| == MAX_OBJECTS_PER_SLAB && slabs[..] == old(slabs[..])
        invariant forall k :: 0 <= k < MAX_OBJECTS_PER_SLAB ==> s.objects[k] == if k < j then base + k * size else 0
        invariant j == 0 ==> Cursor(pages, i, next')
        invariant j > 0 ==> memPtr == base + j * size && memLen == page + PAGE_SIZE && next' == i / 2 + 1
      {
        ObjectFits(j, perSlab, size);
        next' := Refill(pages, i, j, next');
        s := s.(objects := s.objects[j := memPtr]);
        memPtr := memPtr + s.size;
        j := j + 1;
      }
      assert memPtr == base + MAX_SLAB_SIZE && memLen == page + PAGE_SIZE && next' == i / 2 + 1;
      assert s.objects == InitialSlab(i, base).objects;
      slabs[i] := s.(start := s.objects[0], end := s.objects[0] + MAX_SLAB_SIZE - s.size);
    }

    /** The page test of slab_init's inner loop: a NULL or exhausted carving pointer takes a new page. */
    method Refill(pages: seq<u64>, i: nat, j: nat, next: nat) returns (next': nat)
      requires GoodPages(pages) && i < SLAB_COUNT && j * ClassSize(i) < MAX_SLAB_SIZE
      requires j == 0 ==> Cursor(pages, i, next)
      requires j > 0 ==>
        memPtr == BlockOf(pages, i) + j * ClassSize(i) && memLen == pages[i / 2] + PAGE_SIZE && next == i / 2 + 1
      modifies this`memPtr, this`memLen
      ensures memPtr == BlockOf(pages, i) + j * ClassSize(i) && memLen == pages[i / 2] + PAGE_SIZE && next' == i / 2 + 1
    {
      next' := next;
      if memPtr == 0 || memPtr >= memLen {
        memPtr := pages[next'];
        next' := next' + 1;
        memLen := memPtr + PAGE_SIZE;
      }
    }

    /** The class-selection loop of slab_alloc. */
    static method SelectClass(size: u64) returns (allocSize: u64, idx: nat)
      ensures idx == ClassOf(size) && allocSize == ClassSize(idx)
    {
      allocSize := 2;
      idx := 0;
      while allocSize < size && idx < SLAB_COUNT - 1
        invariant idx < SLAB_COUNT && allocSize == ClassSize(idx)
        invariant ClassFrom(size, idx) == ClassOf(size)
        decreases SLAB_COUNT - idx
      {
        ClassSizeFacts(idx + 1);
        ClassSizeStep(idx);
        allocSize := allocSize * 2;
        idx := idx + 1;
      }
    }

    /** find_free_object: the index of the first non-NULL slot of slab idx, or -1. */
    method FindFreeObject(idx: nat) returns (r: int)
      requires Ready() && idx < SLAB_COUNT
      ensures r == match FirstNonNull(slabs[idx].objects, PerSlab(slabs[idx].size), 0)
        case None => -1
        case Some(j) => j
    {
      var perSlab := MAX_SLAB_SIZE / slabs[idx].size;
      ClassSizeFacts(idx);
      var i := 0;
      while i < perSlab
        invariant 0 <= i <= perSlab
        invariant FirstNonNull(slabs[idx].objects, perSlab, i) == FirstNonNull(slabs[idx].objects, perSlab, 0)
      {
        if slabs[idx].objects[i] != 0 {
          return i;
        }
        i := i + 1;
      }
      return -1;
    }

    /**
     * slab_alloc(size): a request above 2048 bytes goes to pmm_alloc for
     * ceil(size / PAGE_SIZE) pages. Otherwise a full class gives NULL at
     * once; a class with no object left is marked full and gives NULL;
     * and otherwise its first object is handed out and its slot set to NULL.
     */
    method Alloc(size: u64) returns (g: Grant)
      requires Ready()
      modifies slabs
      ensures Ready() && (slabs[..], g) == AllocSpec(old(slabs[..]), size)
    {
      var allocSize, idx := SelectClass(size);
      ClassOfIsSmallest(size);
      if size > MAX_SLAB_SIZE {
        return Pages(Wrap64(size + PAGE_SIZE - 1) / PAGE_SIZE);
      }
      if slabs[idx].isFull {
        return Null;
      }
      var freeIdx := FindFreeObject(idx);
      if freeIdx == -1 {
        slabs[idx] := slabs[idx].(isFull := true);
        return Null;
      }
      ClassSizeFacts(idx);
      FirstNonNullIsLowest(slabs[idx].objects, PerSlab(slabs[idx].size));
      var res := slabs[idx].objects[freeIdx];
      slabs[idx] := slabs[idx].(objects := slabs[idx].objects[freeIdx := 0]);
      return Object(res);
    }

    /**
     * One turn of slab_free's loop: when ptr lies in slab i's range on an
     * object boundary it goes back to slot (ptr - start) / size and the
     * slab is no longer full; otherwise nothing changes.
     */
    method TryReturn(i: nat, ptr: u64) returns (taken: bool)
      requires Ready() && i < SLAB_COUNT
      modifies slabs
      ensures Ready() && taken == Accepts(old(slabs[i]), ptr)
      ensures slabs[..] == if taken then Put(old(slabs[..]), i, ptr) else old(slabs[..])
    {
      var s := slabs[i];
      if s.start <= ptr <= s.end {
        var offset := ptr - s.start;
        if offset % s.size == 0 {
          SlotIndexBound(slabs[..], i, ptr);
          var objIdx := offset / s.size;
          slabs[i] := s.(objects := s.objects[objIdx := ptr], isFull := false);
          return true;
        }
      }
      return false;
    }

    /**
     * slab_free(ptr): NULL is ignored. The first slab whose range holds ptr
     * on an object boundary takes it back at slot (ptr - start) / size and
     * is no longer full; a pointer no slab takes is ignored.
     */
    method Free(ptr: u64)
      requires Ready()
      modifies slabs
      ensures Ready() && slabs[..] == FreeSpec(old(slabs[..]), ptr)
    {
      if ptr == 0 {
        return;
      }
      ghost var ss := slabs[..];
      var i: nat := 0;
      while i < SLAB_COUNT
        invariant i <= SLAB_COUNT && slabs[..] == ss
        invariant FreeFrom(ss, ptr, i) == FreeSpec(ss, ptr)
      {
        var taken := TryReturn(i, ptr);
        if taken {
          return;
        }
        i := i + 1;
      }
    }
  }
}
