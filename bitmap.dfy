/**
 * The byte-array bitmap of libk/alloc/bitmap.c (and the identical static
 * helpers of mm/pmm.c): bit i of the map is bit i % 8 of byte i / 8,
 * counted from the least significant bit.
 */
module Bitmap {
  /** The one-bit byte mask 1 << k. */
  function Mask(k: nat): (r: bv8)
    requires k < 8
    ensures r != 0
  {
    if k == 0 then 1 else if k == 1 then 2 else if k == 2 then 4 else if k == 3 then 8
    else if k == 4 then 16 else if k == 5 then 32 else if k == 6 then 64 else 128
  }

  /** Bit k of byte b is set. */
  predicate BitOf(b: bv8, k: nat)
    requires k < 8
  { b & Mask(k) != 0 }

  /** Byte b with bit k turned on (v) or off (!v): `b |= mask` or `b &= ~mask`. */
  function PutBit(b: bv8, k: nat, v: bool): bv8
    requires k < 8
  { if v then b | Mask(k) else b & !Mask(k) }

  /** PutBit gives bit k the value v. */
  lemma PutBitSame(b: bv8, k: nat, v: bool)
    requires k < 8
    ensures BitOf(PutBit(b, k, v), k) == v
  {
  }

  /** PutBit leaves every other bit of the byte alone. */
  lemma PutBitOther(b: bv8, k: nat, v: bool, j: nat)
    requires k < 8 && j < 8 && j != k
    ensures BitOf(PutBit(b, k, v), j) == BitOf(b, j)
  {
    if v {} else {}
  }

  /** PutBit changes bit k to v and no other bit of the byte. */
  lemma PutBitAt(b: bv8, k: nat, v: bool, j: nat)
    requires k < 8 && j < 8
    ensures BitOf(PutBit(b, k, v), j) == if j == k then v else BitOf(b, j)
  {
    if j == k { PutBitSame(b, k, v); } else { PutBitOther(b, k, v, j); }
  }

  /** A byte is determined by its eight one-bit masks. */
  lemma Masks(a: bv8, b: bv8)
    requires a & 1 == b & 1 && a & 2 == b & 2 && a & 4 == b & 4 && a & 8 == b & 8
    requires a & 16 == b & 16 && a & 32 == b & 32 && a & 64 == b & 64 && a & 128 == b & 128
    ensures a == b
  {
  }

  /** A byte is determined by its eight bits. */
  lemma ByteExt(a: bv8, b: bv8)
    requires forall k :: 0 <= k < 8 ==> BitOf(a, k) == BitOf(b, k)
    ensures a == b
  {
    assert Mask(0) == 1 && Mask(1) == 2 && Mask(2) == 4 && Mask(3) == 8;
    assert Mask(4) == 16 && Mask(5) == 32 && Mask(6) == 64 && Mask(7) == 128;
    assert BitOf(a, 0) == BitOf(b, 0);
    assert BitOf(a, 1) == BitOf(b, 1);
    assert BitOf(a, 2) == BitOf(b, 2);
    assert BitOf(a, 3) == BitOf(b, 3);
    assert BitOf(a, 4) == BitOf(b, 4);
    assert BitOf(a, 5) == BitOf(b, 5);
    assert BitOf(a, 6) == BitOf(b, 6);
    assert BitOf(a, 7) == BitOf(b, 7);
    Masks(a, b);
  }

  /** bitmap_check_bit(map, i): the byte holding bit i, masked down to that bit. */
  function CheckBit(m: seq<bv8>, i: nat): bv8
    requires i < 8 * |m|
  { m[i / 8] & Mask(i % 8) }

  /** bitmap_check_bit returns either 0 or the bit's own mask, never another value. */
  lemma CheckBitValue(m: seq<bv8>, i: nat)
    requires i < 8 * |m|
    ensures CheckBit(m, i) == 0 || CheckBit(m, i) == Mask(i % 8)
  {
  }

  /** Bit i of the map is set: bitmap_check_bit would return nonzero. */
  predicate Test(m: seq<bv8>, i: nat)
    requires i < 8 * |m|
  { CheckBit(m, i) != 0 }

  /** The map after setting (v) or clearing (!v) bit i in place. */
  function With(m: seq<bv8>, i: nat, v: bool): (r: seq<bv8>)
    requires i < 8 * |m|
    ensures |r| == |m|
  { m[i / 8 := PutBit(m[i / 8], i % 8, v)] }

  /** After With(m, i, v), bit i reads back as v. */
  lemma WithSame(m: seq<bv8>, i: nat, v: bool)
    requires i < 8 * |m|
    ensures Test(With(m, i, v), i) == v
  {
    PutBitAt(m[i / 8], i % 8, v, i % 8);
  }

  /** With(m, i, v) touches no bit other than i. */
  lemma WithOther(m: seq<bv8>, i: nat, v: bool, j: nat)
    requires i < 8 * |m| && j < 8 * |m| && j != i
    ensures Test(With(m, i, v), j) == Test(m, j)
  {
    if j / 8 == i / 8 {
      PutBitAt(m[i / 8], i % 8, v, j % 8);
    }
  }

  /** A bitmap is determined by its bits. */
  lemma {:induction false} SameBits(a: seq<bv8>, b: seq<bv8>)
    requires |a| == |b|
    requires forall i :: 0 <= i < 8 * |a| ==> Test(a, i) == Test(b, i)
    ensures a == b
  {
    forall n | 0 <= n < |a| ensures a[n] == b[n] {
      forall k | 0 <= k < 8 ensures BitOf(a[n], k) == BitOf(b[n], k) {
        var i := 8 * n + k;
        assert i / 8 == n && i % 8 == k;
        assert Test(a, i) == Test(b, i);
      }
      ByteExt(a[n], b[n]);
    }
  }

  /** Setting or clearing a bit twice is the same as doing it once. */
  lemma {:induction false} WithIdempotent(m: seq<bv8>, i: nat, v: bool)
    requires i < 8 * |m|
    ensures With(With(m, i, v), i, v) == With(m, i, v)
  {
    var once := With(m, i, v);
    forall j | 0 <= j < 8 * |m| ensures Test(With(once, i, v), j) == Test(once, j) {
      if j == i { WithSame(once, i, v); WithSame(m, i, v); } else { WithOther(once, i, v, j); }
    }
    SameBits(With(once, i, v), once);
  }

  /** The map after setting (v) or clearing (!v) bits s .. s+n-1, one at a time in increasing order. */
  function SetRange(m: seq<bv8>, s: nat, n: nat, v: bool): (r: seq<bv8>)
    requires s + n <= 8 * |m|
    ensures |r| == |m|
    decreases n
  { if n == 0 then m else SetRange(With(m, s, v), s + 1, n - 1, v) }

  /** SetRange gives exactly bits s .. s+n-1 the value v and leaves every other bit alone. */
  lemma {:induction false} SetRangeTest(m: seq<bv8>, s: nat, n: nat, v: bool, j: nat)
    requires s + n <= 8 * |m| && j < 8 * |m|
    ensures Test(SetRange(m, s, n, v), j) == if s <= j < s + n then v else Test(m, j)
    decreases n
  {
    if n > 0 {
      SetRangeTest(With(m, s, v), s + 1, n - 1, v, j);
      if j == s { WithSame(m, s, v); } else { WithOther(m, s, v, j); }
    }
  }

  /** Setting bits s .. s+k of a range is setting s .. s+k-1 and then bit s+k. */
  lemma {:induction false} SetRangeSnoc(m: seq<bv8>, s: nat, k: nat, v: bool)
    requires s + k + 1 <= 8 * |m|
    ensures SetRange(m, s, k + 1, v) == With(SetRange(m, s, k, v), s + k, v)
    decreases k
  {
    if k > 0 {
      SetRangeSnoc(With(m, s, v), s + 1, k - 1, v);
    }
  }

  /** Writing a bit its current value changes nothing. */
  lemma WithUnchanged(m: seq<bv8>, i: nat, v: bool)
    requires i < 8 * |m| && Test(m, i) == v
    ensures With(m, i, v) == m
  {
    forall j | 0 <= j < 8 * |m| ensures Test(With(m, i, v), j) == Test(m, j) {
      if j == i { WithSame(m, i, v); } else { WithOther(m, i, v, j); }
    }
    SameBits(With(m, i, v), m);
  }

  function B2N(b: bool): nat
  { if b then 1 else 0 }

  /** The map read as one boolean per bit. */
  function View(m: seq<bv8>): (r: seq<bool>)
    ensures |r| == 8 * |m|
  { seq(8 * |m|, j requires 0 <= j < 8 * |m| => Test(m, j)) }

  /** Writing bit i updates exactly entry i of the view. */
  lemma ViewWith(m: seq<bv8>, i: nat, v: bool)
    requires i < 8 * |m|
    ensures View(With(m, i, v)) == View(m)[i := v]
  {
    forall j | 0 <= j < 8 * |m| ensures View(With(m, i, v))[j] == View(m)[i := v][j] {
      if j == i { WithSame(m, i, v); } else { WithOther(m, i, v, j); }
    }
  }

  /** The number of true entries among bs[0 .. k-1]. */
  function Count(bs: seq<bool>, k: nat): nat
    requires k <= |bs|
  { if k == 0 then 0 else Count(bs, k - 1) + B2N(bs[k - 1]) }

  /** Updating entry i changes the count below k by the change at i, if i < k. */
  lemma {:induction false} CountUpdate(bs: seq<bool>, i: nat, v: bool, k: nat)
    requires i < |bs| && k <= |bs|
    ensures Count(bs[i := v], k) == Count(bs, k) + (if i < k then B2N(v) - B2N(bs[i]) else 0)
  {
    if k > 0 {
      CountUpdate(bs, i, v, k - 1);
    }
  }

  /** The number of set bits among bits 0 .. k-1. */
  function CountSet(m: seq<bv8>, k: nat): nat
    requires k <= 8 * |m|
  { Count(View(m), k) }

  /** The number of set bits of the whole map. */
  function Population(m: seq<bv8>): nat
  { CountSet(m, 8 * |m|) }

  /** Writing v into bit i changes the count of bits below k by the change at i, if i < k. */
  lemma CountSetWith(m: seq<bv8>, i: nat, v: bool, k: nat)
    requires i < 8 * |m| && k <= 8 * |m|
    ensures CountSet(With(m, i, v), k) ==
      CountSet(m, k) + (if i < k then B2N(v) - B2N(Test(m, i)) else 0)
  {
    ViewWith(m, i, v);
    CountUpdate(View(m), i, v, k);
  }

  /** Bit k-1 is counted once in the set bits below k. */
  lemma CountSetStep(m: seq<bv8>, k: nat)
    requires 0 < k <= 8 * |m|
    ensures CountSet(m, k) == CountSet(m, k - 1) + B2N(Test(m, k - 1))
  {
  }

  /** The view of SetRange: entries s .. s+n-1 become v, one at a time in increasing order. */
  function Fill(bs: seq<bool>, s: nat, n: nat, v: bool): (r: seq<bool>)
    requires s + n <= |bs|
    ensures |r| == |bs|
    decreases n
  { if n == 0 then bs else Fill(bs[s := v], s + 1, n - 1, v) }

  /** SetRange on the bytes is Fill on the view. */
  lemma {:induction false} ViewSetRange(m: seq<bv8>, s: nat, n: nat, v: bool)
    requires s + n <= 8 * |m|
    ensures View(SetRange(m, s, n, v)) == Fill(View(m), s, n, v)
    decreases n
  {
    if n > 0 {
      ViewWith(m, s, v);
      ViewSetRange(With(m, s, v), s + 1, n - 1, v);
    }
  }

  /** Filling entries s .. s+n-1 with false lowers the count by the true entries among them. */
  lemma {:induction false} CountClearFill(bs: seq<bool>, s: nat, n: nat)
    requires s + n <= |bs|
    ensures Count(Fill(bs, s, n, false), |bs|) == Count(bs, |bs|) - (Count(bs, s + n) - Count(bs, s))
    decreases n
  {
    if n > 0 {
      var b1 := bs[s := false];
      CountClearFill(b1, s + 1, n - 1);
      CountUpdate(bs, s, false, |bs|);
      CountUpdate(bs, s, false, s + n);
      CountUpdate(bs, s, false, s + 1);
    }
  }

  /** Filling n false entries with true raises the count by n. */
  lemma {:induction false} CountSetFill(bs: seq<bool>, s: nat, n: nat)
    requires s + n <= |bs|
    requires forall k :: s <= k < s + n ==> !bs[k]
    ensures Count(Fill(bs, s, n, true), |bs|) == Count(bs, |bs|) + n
    decreases n
  {
    if n > 0 {
      CountSetFill(bs[s := true], s + 1, n - 1);
      CountUpdate(bs, s, true, |bs|);
    }
  }

  /** A run of false entries adds nothing to the count. */
  lemma {:induction false} CountFalseRun(bs: seq<bool>, s: nat, n: nat)
    requires s + n <= |bs|
    requires forall k :: s <= k < s + n ==> !bs[k]
    ensures Count(bs, s + n) == Count(bs, s)
    decreases n
  {
    if n > 0 {
      CountFalseRun(bs, s, n - 1);
    }
  }

  /** Clearing a range lowers the population by the number of bits of the range that were set. */
  lemma PopulationClearRange(m: seq<bv8>, s: nat, n: nat)
    requires s + n <= 8 * |m|
    ensures Population(SetRange(m, s, n, false)) == Population(m) - (CountSet(m, s + n) - CountSet(m, s))
  {
    ViewSetRange(m, s, n, false);
    CountClearFill(View(m), s, n);
  }

  /** A map of 0xFF bytes, as memset leaves it, has every bit set. */
  lemma AllOnes(m: seq<bv8>)
    requires forall n :: 0 <= n < |m| ==> m[n] == 0xFF
    ensures forall j :: 0 <= j < 8 * |m| ==> Test(m, j)
  {
    forall j | 0 <= j < 8 * |m| ensures Test(m, j) {
      assert m[j / 8] == 0xFF;
    }
  }

  /** bitmap_set_bit: turns on bit `bit` of the map in place. */
  method SetBit(bits: array<bv8>, bit: int)
    requires 0 <= bit < 8 * bits.Length
    modifies bits
    ensures bits[..] == With(old(bits[..]), bit, true)
  {
    bits[bit / 8] := PutBit(bits[bit / 8], bit % 8, true);
  }

  /** bitmap_unset_bit: turns off bit `bit` of the map in place. */
  method UnsetBit(bits: array<bv8>, bit: int)
    requires 0 <= bit < 8 * bits.Length
    modifies bits
    ensures bits[..] == With(old(bits[..]), bit, false)
  {
    bits[bit / 8] := PutBit(bits[bit / 8], bit % 8, false);
  }
}
