/**
 * The first-fit search both bitmap frame allocators (mm/pmm.c and
 * memory/pmm.c) run: the lowest-numbered run of `n` clear bits that ends
 * within the first `limit` bits.
 */
module FirstFit {
  import opened Wrappers
  import opened Bitmap

  /** Bits s .. s+n-1 of the map are all clear. */
  predicate RunClear(m: seq<bv8>, s: nat, n: nat)
    requires s + n <= 8 * |m|
  { forall k :: s <= k < s + n ==> !Test(m, k) }

  /** The lowest start t >= from of a clear run of n bits inside the first `limit` bits. */
  function FirstFitFrom(m: seq<bv8>, limit: nat, n: nat, from: nat): (r: Option<nat>)
    requires limit <= 8 * |m|
    ensures r.Some? ==> from <= r.value && r.value + n <= limit
    decreases limit - from
  {
    if from + n > limit then None
    else if RunClear(m, from, n) then Some(from)
    else FirstFitFrom(m, limit, n, from + 1)
  }

  /**
   * The run the allocators' scan finds. A request for 0 frames finds
   * nothing, because the scan compares its run length with the request
   * only after counting the current clear bit.
   */
  function Search(m: seq<bv8>, limit: nat, n: nat): (r: Option<nat>)
    requires limit <= 8 * |m|
    ensures r.Some? ==> n > 0 && r.value + n <= limit
  { if n == 0 then None else FirstFitFrom(m, limit, n, 0) }

  lemma {:induction false} FromFound(m: seq<bv8>, limit: nat, n: nat, from: nat, s: nat)
    requires limit <= 8 * |m|
    requires FirstFitFrom(m, limit, n, from) == Some(s)
    ensures from <= s && s + n <= limit && RunClear(m, s, n)
    ensures forall t :: from <= t < s ==> !RunClear(m, t, n)
    decreases limit - from
  {
    if from + n <= limit && !RunClear(m, from, n) {
      FromFound(m, limit, n, from + 1, s);
    }
  }

  lemma {:induction false} FromNone(m: seq<bv8>, limit: nat, n: nat, from: nat)
    requires limit <= 8 * |m|
    requires FirstFitFrom(m, limit, n, from) == None
    ensures forall t: nat :: from <= t && t + n <= limit ==> !RunClear(m, t, n)
    decreases limit - from
  {
    if from + n <= limit {
      FromNone(m, limit, n, from + 1);
    }
  }

  lemma {:induction false} FromLowest(m: seq<bv8>, limit: nat, n: nat, from: nat, s: nat)
    requires limit <= 8 * |m|
    requires from <= s && s + n <= limit && RunClear(m, s, n)
    requires forall t :: from <= t < s ==> !RunClear(m, t, n)
    ensures FirstFitFrom(m, limit, n, from) == Some(s)
    decreases s - from
  {
    if from < s {
      FromLowest(m, limit, n, from + 1, s);
    }
  }

  lemma {:induction false} FromAbsent(m: seq<bv8>, limit: nat, n: nat, from: nat)
    requires limit <= 8 * |m|
    requires forall t: nat :: from <= t && t + n <= limit ==> !RunClear(m, t, n)
    ensures FirstFitFrom(m, limit, n, from) == None
    decreases limit - from
  {
    if from + n <= limit {
      FromAbsent(m, limit, n, from + 1);
    }
  }

  /** Search finds s exactly when s starts the lowest clear run of n > 0 bits within the limit. */
  lemma SearchIsLowestRun(m: seq<bv8>, limit: nat, n: nat, s: nat)
    requires limit <= 8 * |m|
    ensures Search(m, limit, n) == Some(s) <==>
      (n > 0 && s + n <= limit && RunClear(m, s, n) && forall t :: 0 <= t < s ==> !RunClear(m, t, n))
  {
    if Search(m, limit, n) == Some(s) {
      FromFound(m, limit, n, 0, s);
    }
    if n > 0 && s + n <= limit && RunClear(m, s, n) && forall t :: 0 <= t < s ==> !RunClear(m, t, n) {
      FromLowest(m, limit, n, 0, s);
    }
  }

  /** Search finds nothing exactly when n is 0 or no clear run of n bits fits within the limit. */
  lemma SearchFails(m: seq<bv8>, limit: nat, n: nat)
    requires limit <= 8 * |m|
    ensures Search(m, limit, n) == None <==>
      (n == 0 || forall t: nat :: t + n <= limit ==> !RunClear(m, t, n))
  {
    if n > 0 {
      if Search(m, limit, n) == None {
        FromNone(m, limit, n, 0);
      } else {
        FromFound(m, limit, n, 0, Search(m, limit, n).value);
      }
      if forall t: nat :: t + n <= limit ==> !RunClear(m, t, n) {
        FromAbsent(m, limit, n, 0);
      }
    }
  }

  /** Clearing the run a search found gives back the map it searched. */
  lemma AllocThenFreeRestores(m: seq<bv8>, limit: nat, n: nat)
    requires limit <= 8 * |m|
    requires Search(m, limit, n).Some?
    ensures var s := Search(m, limit, n).value;
      SetRange(SetRange(m, s, n, true), s, n, false) == m
  {
    var s := Search(m, limit, n).value;
    SearchIsLowestRun(m, limit, n, s);
    var r := SetRange(SetRange(m, s, n, true), s, n, false);
    forall j | 0 <= j < 8 * |m| ensures Test(r, j) == Test(m, j) {
      SetRangeTest(SetRange(m, s, n, true), s, n, false, j);
      SetRangeTest(m, s, n, true, j);
    }
    SameBits(r, m);
  }

  /** Clearing bits that are already clear changes nothing, so a repeated free is harmless. */
  lemma ClearingClearRunIsNoOp(m: seq<bv8>, s: nat, n: nat)
    requires s + n <= 8 * |m|
    requires RunClear(m, s, n)
    ensures SetRange(m, s, n, false) == m
  {
    forall j | 0 <= j < 8 * |m| ensures Test(SetRange(m, s, n, false), j) == Test(m, j) {
      SetRangeTest(m, s, n, false, j);
    }
    SameBits(SetRange(m, s, n, false), m);
  }

  /** Setting a clear run of n bits raises the population by exactly n. */
  lemma PopulationSetClearRun(m: seq<bv8>, s: nat, n: nat)
    requires s + n <= 8 * |m|
    requires RunClear(m, s, n)
    ensures Population(SetRange(m, s, n, true)) == Population(m) + n
  {
    ViewSetRange(m, s, n, true);
    CountSetFill(View(m), s, n);
  }

  /** A found run only covers clear bits, so a set bit 0 keeps the search off frame 0. */
  lemma SearchAvoidsSetBit(m: seq<bv8>, limit: nat, n: nat, b: nat)
    requires limit <= 8 * |m| && b < 8 * |m| && Test(m, b)
    requires Search(m, limit, n).Some?
    ensures var s := Search(m, limit, n).value; !(s <= b < s + n)
  {
    SearchIsLowestRun(m, limit, n, Search(m, limit, n).value);
  }

  /** A clear run adds nothing to the count of set bits. */
  lemma CountSetClearRun(m: seq<bv8>, s: nat, n: nat)
    requires s + n <= 8 * |m|
    requires RunClear(m, s, n)
    ensures CountSet(m, s + n) == CountSet(m, s)
  {
    CountFalseRun(View(m), s, n);
  }

  /** After a range is cleared it is a clear run, so clearing it again changes nothing. */
  lemma ClearRangeTwice(m: seq<bv8>, s: nat, n: nat)
    requires s + n <= 8 * |m|
    ensures RunClear(SetRange(m, s, n, false), s, n)
    ensures SetRange(SetRange(m, s, n, false), s, n, false) == SetRange(m, s, n, false)
  {
    var once := SetRange(m, s, n, false);
    forall j | s <= j < s + n ensures !Test(once, j) {
      SetRangeTest(m, s, n, false, j);
    }
    ClearingClearRunIsNoOp(once, s, n);
  }

  /**
   * The scan loop of both pmm_alloc versions: bits below `limit` are read
   * in order while counting the current streak of clear bits, which
   * restarts after every set bit; the scan stops when the streak reaches
   * `count`.
   */
  method FindRun(bits: array<bv8>, limit: nat, count: nat) returns (found: bool, start: nat)
    requires limit <= 8 * bits.Length
    ensures found == Search(bits[..], limit, count).Some?
    ensures found ==> Search(bits[..], limit, count) == Some(start)
  {
    ghost var m := bits[..];
    var consecutive := 0;
    start := 0;
    var i := 0;
    while i < limit
      invariant 0 <= i <= limit
      invariant consecutive <= i
      invariant count == 0 || consecutive < count
      invariant consecutive > 0 ==> start == i - consecutive
      invariant RunClear(m, i - consecutive, consecutive)
      invariant i - consecutive > 0 ==> Test(m, i - consecutive - 1)
      invariant count > 0 ==> forall t: nat :: t + count <= i ==> !RunClear(m, t, count)
    {
      if CheckBit(bits[..], i) == 0 {
        if consecutive == 0 {
          start := i;
        }
        consecutive := consecutive + 1;
        if consecutive == count {
          assert RunClear(m, start, count);
          SearchIsLowestRun(m, limit, count, start);
          return true, start;
        }
        forall t: nat | t + count == i + 1 && count > 0 ensures !RunClear(m, t, count) {
          assert t <= i - consecutive && Test(m, i - consecutive);
        }
      } else {
        consecutive := 0;
        forall t: nat | t + count == i + 1 && count > 0 ensures !RunClear(m, t, count) {
          assert Test(m, i);
        }
      }
      i := i + 1;
    }
    SearchFails(m, limit, count);
    return false, start;
  }
}
