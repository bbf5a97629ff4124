/**
 * The kernel's byte and string library (lib/string.c). Memory is one
 * byte array addressed by offsets, so memcpy and memmove see the overlaps
 * the C code has to cope with; a C string is a byte sequence that holds a
 * NUL. The writers are methods over the array, each proved against a
 * specification function on its contents; the readers are loops proved
 * against recursive specification functions, whose meaning is proved in
 * lemmas.
 */
module CString {
  import opened Machine
  import opened Wrappers

  // ---------------------------------------------------------------------
  // Copies
  // ---------------------------------------------------------------------

  /** Memory after the first n steps of a forward byte copy from s to d. */
  function CopyForward(m: seq<u8>, d: nat, s: nat, n: nat): (r: seq<u8>)
    requires d + n <= |m| && s + n <= |m|
    ensures |r| == |m|
  {
    if n == 0 then m
    else
      var p := CopyForward(m, d, s, n - 1);
      p[d + n - 1 := p[s + n - 1]]
  }

  /** Memory after the first i steps of a backward byte copy of n bytes from s to d (last byte first). */
  function CopyBackward(m: seq<u8>, d: nat, s: nat, n: nat, i: nat): (r: seq<u8>)
    requires d + n <= |m| && s + n <= |m| && i <= n
    ensures |r| == |m|
  {
    if i == 0 then m
    else
      var p := CopyBackward(m, d, s, n, i - 1);
      p[d + n - i := p[s + n - i]]
  }

  /** n bytes of m from s appear at d, and every other byte is as it was. */
  predicate Moved(m: seq<u8>, r: seq<u8>, d: nat, s: nat, n: nat)
    requires d + n <= |m| && s + n <= |m|
  {
    |r| == |m| &&
    (forall j :: d <= j < d + n ==> r[j] == m[s + (j - d)]) &&
    (forall j :: 0 <= j < |m| && !(d <= j < d + n) ==> r[j] == m[j])
  }

  /** A forward copy is a true copy unless the destination starts inside the source. */
  lemma {:induction false} ForwardCopies(m: seq<u8>, d: nat, s: nat, n: nat)
    requires d + n <= |m| && s + n <= |m|
    requires d <= s || s + n <= d
    ensures Moved(m, CopyForward(m, d, s, n), d, s, n)
  {
    if n > 0 {
      ForwardCopies(m, d, s, n - 1);
      var p := CopyForward(m, d, s, n - 1);
      assert p[s + n - 1] == m[s + n - 1];
    }
  }

  /** A forward copy into a destination that starts inside the source repeats bytes: 1, 2 copied over 2, 3 gives 1, 1. */
  lemma ForwardOverlapSmears()
    ensures CopyForward([1, 2, 3], 1, 0, 2) == [1, 1, 1]
  {
  }

  /** A backward copy is a true copy whenever the destination starts after the source. */
  lemma {:induction false} BackwardCopies(m: seq<u8>, d: nat, s: nat, n: nat, i: nat)
    requires d + n <= |m| && s + n <= |m| && i <= n && s < d
    ensures var r := CopyBackward(m, d, s, n, i);
      (forall j :: d + n - i <= j < d + n ==> r[j] == m[s + (j - d)]) &&
      (forall j :: 0 <= j < |m| && !(d + n - i <= j < d + n) ==> r[j] == m[j])
  {
    if i > 0 {
      BackwardCopies(m, d, s, n, i - 1);
    }
  }

  /** memmove's choice: backward when the source starts below the destination and reaches it, forward otherwise. */
  function MoveSpec(m: seq<u8>, d: nat, s: nat, n: nat): (r: seq<u8>)
    requires d + n <= |m| && s + n <= |m|
    ensures |r| == |m|
  {
    if s < d && s + n > d then CopyBackward(m, d, s, n, n) else CopyForward(m, d, s, n)
  }

  /** After memmove the destination holds the original source bytes, however the two overlap. */
  lemma MoveMoves(m: seq<u8>, d: nat, s: nat, n: nat)
    requires d + n <= |m| && s + n <= |m|
    ensures Moved(m, MoveSpec(m, d, s, n), d, s, n)
  {
    if s < d && s + n > d {
      BackwardCopies(m, d, s, n, n);
    } else {
      ForwardCopies(m, d, s, n);
    }
  }

  /** memcpy(dest, src, n): copies byte by byte upwards and returns dest. */
  method MemCpy(mem: array<u8>, d: nat, s: nat, n: nat) returns (r: nat)
    requires d + n <= mem.Length && s + n <= mem.Length
    modifies mem
    ensures mem[..] == CopyForward(old(mem[..]), d, s, n) && r == d
  {
    var i := 0;
    while d + i != d + n
      invariant 0 <= i <= n
      invariant mem[..] == CopyForward(old(mem[..]), d, s, i)
    {
      mem[d + i] := mem[s + i];
      i := i + 1;
    }
    return d;
  }

  /** memmove(dest, src, n). */
  method MemMove(mem: array<u8>, d: nat, s: nat, n: nat) returns (r: nat)
    requires d + n <= mem.Length && s + n <= mem.Length
    modifies mem
    ensures mem[..] == MoveSpec(old(mem[..]), d, s, n) && r == d
  {
    if s < d && s + n > d {
      var k := n;
      while k > 0
        invariant 0 <= k <= n
        invariant mem[..] == CopyBackward(old(mem[..]), d, s, n, n - k)
      {
        k := k - 1;
        mem[d + k] := mem[s + k];
      }
      return d;
    } else {
      r := MemCpy(mem, d, s, n);
    }
  }

  /** The buffer with n bytes from d set to b. */
  function Fill(m: seq<u8>, d: nat, n: nat, b: u8): (r: seq<u8>)
    requires d + n <= |m|
    ensures |r| == |m|
    ensures forall k :: 0 <= k < |m| ==> r[k] == if d <= k < d + n then b else m[k]
  {
    m[..d] + seq(n, _ => b) + m[d + n..]
  }

  /** memset(s, c, n): n bytes set to (uint8_t)c; returns s. */
  method MemSet(mem: array<u8>, d: nat, c: int, n: nat) returns (r: nat)
    requires d + n <= mem.Length
    modifies mem
    ensures mem[..] == Fill(old(mem[..]), d, n, Wrap8(c)) && r == d
  {
    var i := 0;
    while i < n
      invariant 0 <= i <= n
      invariant forall k :: 0 <= k < mem.Length ==> mem[k] == if d <= k < d + i then Wrap8(c) else old(mem[k])
    {
      mem[d + i] := Wrap8(c);
      i := i + 1;
    }
    return d;
  }

  // ---------------------------------------------------------------------
  // memcmp
  // ---------------------------------------------------------------------

  /** memcmp from byte i on: the difference of the first mismatching bytes, or 0. */
  function CompareFrom(a: seq<u8>, b: seq<u8>, n: nat, i: nat): (r: int)
    requires n <= |a| && n <= |b| && i <= n
    ensures -255 <= r <= 255
    decreases n - i
  {
    if i == n then 0
    else if a[i] != b[i] then a[i] as int - b[i] as int
    else CompareFrom(a, b, n, i + 1)
  }

  /** memcmp is 0 exactly when the first n bytes agree; otherwise it is the difference at the first mismatch. */
  lemma {:induction false} CompareFromMeaning(a: seq<u8>, b: seq<u8>, n: nat, i: nat)
    requires n <= |a| && n <= |b| && i <= n
    ensures CompareFrom(a, b, n, i) == 0 <==> a[i..n] == b[i..n]
    ensures CompareFrom(a, b, n, i) != 0 ==>
      exists j :: i <= j < n && a[i..j] == b[i..j] && a[j] != b[j] && CompareFrom(a, b, n, i) == a[j] as int - b[j] as int
    decreases n - i
  {
    if i < n {
      if a[i] == b[i] {
        CompareFromMeaning(a, b, n, i + 1);
        assert a[i..n] == [a[i]] + a[i + 1..n];
        assert b[i..n] == [b[i]] + b[i + 1..n];
        if CompareFrom(a, b, n, i) != 0 {
          var j :| i + 1 <= j < n && a[i + 1..j] == b[i + 1..j] && a[j] != b[j] && CompareFrom(a, b, n, i + 1) == a[j] as int - b[j] as int;
          assert a[i..j] == [a[i]] + a[i + 1..j];
          assert b[i..j] == [b[i]] + b[i + 1..j];
        }
      } else {
        assert a[i..n][0] != b[i..n][0];
        assert a[i..i] == b[i..i];
      }
    }
  }

  /** memcmp(s1, s2, n). */
  method MemCmp(a: seq<u8>, b: seq<u8>, n: nat) returns (r: int)
    requires n <= |a| && n <= |b|
    ensures r == CompareFrom(a, b, n, 0)
  {
    var i := 0;
    while i < n
      invariant 0 <= i <= n
      invariant CompareFrom(a, b, n, 0) == CompareFrom(a, b, n, i)
    {
      if a[i] != b[i] {
        return a[i] as int - b[i] as int;
      }
      i := i + 1;
    }
    return 0;
  }

  // ---------------------------------------------------------------------
  // C strings
  // ---------------------------------------------------------------------

  /** A C string: the buffer holds a NUL. */
  predicate Terminated(s: seq<u8>)
  {
    0 in s
  }

  function FirstNulFrom(s: seq<u8>, i: nat): (r: nat)
    requires Terminated(s) && i <= |s| && 0 !in s[..i]
    ensures i <= r < |s| && s[r] == 0 && 0 !in s[..r]
    decreases |s| - i
  {
    if s[i] == 0 then i
    else
      assert s[..i + 1] == s[..i] + [s[i]];
      FirstNulFrom(s, i + 1)
  }

  /** The length of a C string: the index of its first NUL. */
  function Length(s: seq<u8>): (r: nat)
    requires Terminated(s)
    ensures r < |s| && s[r] == 0 && forall k :: 0 <= k < r ==> s[k] != 0
  {
    var r := FirstNulFrom(s, 0);
    assert forall k :: 0 <= k < r ==> s[k] in s[..r];
    r
  }

  /** The characters of a C string, without the NUL. */
  function Chars(s: seq<u8>): (r: seq<u8>)
    requires Terminated(s)
    ensures 0 !in r
  {
    s[..Length(s)]
  }

  /** strlen(s). */
  method StrLen(s: seq<u8>) returns (len: nat)
    requires Terminated(s)
    ensures len == Length(s)
  {
    len := 0;
    while s[len] != 0
      invariant len <= Length(s)
      decreases Length(s) - len
    {
      len := len + 1;
    }
  }

  /** strcpy(dest, src): the characters and the NUL copied to dest. */
  method StrCpy(dest: array<u8>, d: nat, src: seq<u8>) returns (r: nat)
    requires Terminated(src) && d + Length(src) + 1 <= dest.Length
    modifies dest
    ensures dest[..] == old(dest[..d]) + src[..Length(src) + 1] + old(dest[d + Length(src) + 1..]) && r == d
  {
    var i := 0;
    while true
      invariant 0 <= i <= Length(src)
      invariant dest[..] == old(dest[..d]) + src[..i] + old(dest[d + i..])
      decreases Length(src) - i
    {
      dest[d + i] := src[i];
      if src[i] == 0 {
        assert i == Length(src);
        assert dest[..] == old(dest[..d]) + src[..i + 1] + old(dest[d + i + 1..]);
        return d;
      }
      assert dest[..] == old(dest[..d]) + src[..i + 1] + old(dest[d + i + 1..]);
      i := i + 1;
    }
  }

  /** The buffer strncpy can read: a NUL, or at least n bytes. */
  predicate Readable(s: seq<u8>, n: nat)
  {
    n <= |s| || Terminated(s)
  }

  /** How many characters strncpy and strncmp take from s: up to the first NUL, at most n. */
  function Span(s: seq<u8>, n: nat): (r: nat)
    requires Readable(s, n)
    ensures r <= n && r <= |s|
    ensures forall k :: 0 <= k < r ==> s[k] != 0
    ensures r < n ==> s[r] == 0
  {
    if Terminated(s) && Length(s) < n then Length(s) else n
  }

  /** The n bytes strncpy writes: the characters, then NUL padding. */
  function Padded(s: seq<u8>, n: nat): (r: seq<u8>)
    requires Readable(s, n)
    ensures |r| == n
  {
    s[..Span(s, n)] + seq(n - Span(s, n), _ => 0)
  }

  /** strncpy leaves dest unterminated exactly when the source has no NUL among its first n bytes. */
  lemma PaddedTerminated(s: seq<u8>, n: nat)
    requires Readable(s, n)
    ensures 0 in Padded(s, n) <==> Span(s, n) < n
  {
    var k := Span(s, n);
    var r := Padded(s, n);
    if k < n {
      assert r[k] == 0;
    } else {
      assert r == s[..n];
      forall j | 0 <= j < n ensures r[j] != 0 {}
    }
  }

  /** strncpy(dest, src, n). */
  method StrNCpy(dest: array<u8>, d: nat, src: seq<u8>, n: nat) returns (r: nat)
    requires Readable(src, n) && d + n <= dest.Length
    modifies dest
    ensures dest[..] == old(dest[..d]) + Padded(src, n) + old(dest[d + n..]) && r == d
  {
    var i := 0;
    while i < n && src[i] != 0
      invariant 0 <= i <= Span(src, n)
      invariant forall j :: 0 <= j < dest.Length ==> dest[j] == if d <= j < d + i then src[j - d] else old(dest[j])
      decreases n - i
    {
      dest[d + i] := src[i];
      i := i + 1;
    }
    ghost var k := i;
    assert k == Span(src, n);
    while i < n
      invariant k <= i <= n
      invariant forall j :: 0 <= j < dest.Length ==>
        dest[j] == if d <= j < d + i then (if j - d < k then src[j - d] else 0) else old(dest[j])
    {
      dest[d + i] := 0;
      i := i + 1;
    }
    ghost var want := old(dest[..d]) + Padded(src, n) + old(dest[d + n..]);
    assert |want| == dest.Length;
    forall j | 0 <= j < dest.Length ensures dest[j] == want[j] {
      if j < d {
      } else if j < d + n {
        assert want[j] == Padded(src, n)[j - d];
      }
    }
    assert dest[..] == want;
    return d;
  }

  /** strncmp from index i with at most n - i characters left: as the loop in strncmp computes it. */
  function StrNCmpFrom(a: seq<u8>, b: seq<u8>, n: nat, i: nat): (r: int)
    requires Readable(a, n) && Readable(b, n) && i <= Span(a, n) && i <= |b| && a[..i] == b[..i]
    ensures -255 <= r <= 255
    decreases n - i
  {
    if i == n then 0
    else if a[i] != 0 && a[i] == b[i] then
      assert a[..i + 1] == a[..i] + [a[i]];
      assert b[..i + 1] == b[..i] + [b[i]];
      StrNCmpFrom(a, b, n, i + 1)
    else a[i] as int - b[i] as int
  }

  /**
   * strncmp(a, b, n) is 0 exactly when the strings agree on their first n
   * characters (n = 0 gives 0); otherwise it is the difference of the
   * bytes at the first index where they differ.
   */
  lemma {:induction false} StrNCmpMeaning(a: seq<u8>, b: seq<u8>, n: nat, i: nat)
    requires Readable(a, n) && Readable(b, n) && i <= Span(a, n) && i <= |b| && a[..i] == b[..i]
    ensures StrNCmpFrom(a, b, n, i) == 0 <==> a[..Span(a, n)] == b[..Span(b, n)]
    ensures StrNCmpFrom(a, b, n, i) != 0 ==>
      exists j :: (i <= j < n && j <= Span(a, n) && j < |a| && j < |b| &&
        a[..j] == b[..j] && a[j] != b[j] && StrNCmpFrom(a, b, n, i) == a[j] as int - b[j] as int)
    decreases n - i
  {
    StrNCmpDifference(a, b, n, i);
    var ka, kb := Span(a, n), Span(b, n);
    if i == n {
      assert ka == n && kb == n;
    } else if a[i] != 0 && a[i] == b[i] {
      assert a[..i + 1] == a[..i] + [a[i]];
      assert b[..i + 1] == b[..i] + [b[i]];
      StrNCmpMeaning(a, b, n, i + 1);
    } else if a[i] == 0 {
      assert ka == i;
      if b[i] == 0 {
        assert kb == i;
      } else {
        assert |b[..kb]| > i by { assert kb > i; }
      }
    } else {
      assert ka > i;
      if kb > i {
        assert a[..ka][i] != b[..kb][i];
      }
    }
  }

  /** A nonzero strncmp is the difference at the first index where the strings differ. */
  lemma {:induction false} StrNCmpDifference(a: seq<u8>, b: seq<u8>, n: nat, i: nat)
    requires Readable(a, n) && Readable(b, n) && i <= Span(a, n) && i <= |b| && a[..i] == b[..i]
    ensures StrNCmpFrom(a, b, n, i) != 0 ==>
      exists j :: (i <= j < n && j <= Span(a, n) && j < |a| && j < |b| &&
        a[..j] == b[..j] && a[j] != b[j] && StrNCmpFrom(a, b, n, i) == a[j] as int - b[j] as int)
    decreases n - i
  {
    if i < n {
      if a[i] != 0 && a[i] == b[i] {
        assert a[..i + 1] == a[..i] + [a[i]];
        assert b[..i + 1] == b[..i] + [b[i]];
        StrNCmpDifference(a, b, n, i + 1);
      } else if a[i] != b[i] {
        assert StrNCmpFrom(a, b, n, i) == a[i] as int - b[i] as int;
      }
    }
  }

  /** strncmp(s1, s2, n). */
  method StrNCmp(a: seq<u8>, b: seq<u8>, n: nat) returns (r: int)
    requires Readable(a, n) && Readable(b, n)
    ensures r == StrNCmpFrom(a, b, n, 0)
  {
    var i := 0;
    while i < n && a[i] != 0 && a[i] == b[i]
      invariant i <= Span(a, n) && i <= |b| && a[..i] == b[..i]
      invariant StrNCmpFrom(a, b, n, 0) == StrNCmpFrom(a, b, n, i)
      decreases n - i
    {
      assert a[..i + 1] == a[..i] + [a[i]];
      assert b[..i + 1] == b[..i] + [b[i]];
      i := i + 1;
    }
    if i == n {
      return 0;
    }
    return a[i] as int - b[i] as int;
  }

  /** strcmp from index i on, over strings that agree before i. */
  function StrCmpFrom(a: seq<u8>, b: seq<u8>, i: nat): (r: int)
    requires Terminated(a) && Terminated(b) && i <= Length(a) && i <= |b| && a[..i] == b[..i]
    ensures -255 <= r <= 255
    decreases Length(a) - i
  {
    if a[i] != 0 && a[i] == b[i] then
      assert a[..i + 1] == a[..i] + [a[i]];
      assert b[..i + 1] == b[..i] + [b[i]];
      StrCmpFrom(a, b, i + 1)
    else a[i] as int - b[i] as int
  }

  /** strcmp is strncmp with a bound past both strings. */
  lemma {:induction false} StrCmpIsStrNCmp(a: seq<u8>, b: seq<u8>, n: nat, i: nat)
    requires Terminated(a) && Terminated(b) && n > Length(a) && n > Length(b)
    requires i <= Length(a) && i <= |b| && a[..i] == b[..i]
    ensures i <= Span(a, n) && StrCmpFrom(a, b, i) == StrNCmpFrom(a, b, n, i)
    decreases Length(a) - i
  {
    if a[i] != 0 && a[i] == b[i] {
      assert a[..i + 1] == a[..i] + [a[i]];
      assert b[..i + 1] == b[..i] + [b[i]];
      StrCmpIsStrNCmp(a, b, n, i + 1);
    }
  }

  /**
   * strcmp(a, b) is 0 exactly when the two strings are equal; otherwise it
   * is the difference of the bytes at the first index where they differ,
   * a terminator included.
   */
  lemma StrCmpMeaning(a: seq<u8>, b: seq<u8>)
    requires Terminated(a) && Terminated(b)
    ensures StrCmpFrom(a, b, 0) == 0 <==> Chars(a) == Chars(b)
    ensures StrCmpFrom(a, b, 0) != 0 ==>
      exists j :: (0 <= j <= Length(a) && j < |a| && j < |b| &&
        a[..j] == b[..j] && a[j] != b[j] && StrCmpFrom(a, b, 0) == a[j] as int - b[j] as int)
  {
    var n := Length(a) + Length(b) + 1;
    StrCmpIsStrNCmp(a, b, n, 0);
    StrNCmpMeaning(a, b, n, 0);
  }

  /** strcmp(s1, s2). */
  method StrCmp(a: seq<u8>, b: seq<u8>) returns (r: int)
    requires Terminated(a) && Terminated(b)
    ensures r == StrCmpFrom(a, b, 0)
  {
    var i := 0;
    while a[i] != 0 && a[i] == b[i]
      invariant i <= Length(a) && i <= |b| && a[..i] == b[..i]
      invariant StrCmpFrom(a, b, 0) == StrCmpFrom(a, b, i)
      decreases Length(a) - i
    {
      assert a[..i + 1] == a[..i] + [a[i]];
      assert b[..i + 1] == b[..i] + [b[i]];
      i := i + 1;
    }
    return a[i] as int - b[i] as int;
  }

  // ---------------------------------------------------------------------
  // strchr, strrchr
  // ---------------------------------------------------------------------

  /** A byte compared with an int argument: char is signed, so bytes from 0x80 read negative. */
  predicate Matches(b: u8, c: int)
  {
    AsInt8(b) == c
  }

  /** strchr from index i: the first matching character, else the NUL when c is 0, else NULL. */
  function FindFrom(s: seq<u8>, c: int, i: nat): (r: Option<nat>)
    requires Terminated(s) && i <= Length(s)
    decreases Length(s) - i
  {
    if s[i] == 0 then (if c == 0 then Some(i) else None)
    else if Matches(s[i], c) then Some(i)
    else FindFrom(s, c, i + 1)
  }

  /** strchr finds the first character equal to c, the terminator for c = 0, and NULL otherwise. */
  lemma {:induction false} FindFromMeaning(s: seq<u8>, c: int, i: nat)
    requires Terminated(s) && i <= Length(s)
    ensures var r := FindFrom(s, c, i);
      (r.Some? ==> (i <= r.value <= Length(s) && (r.value < Length(s) ==> Matches(s[r.value], c)) &&
        (r.value == Length(s) ==> c == 0) &&
        forall k :: i <= k < r.value ==> !Matches(s[k], c))) &&
      (r.None? <==> c != 0 && forall k :: i <= k < Length(s) ==> !Matches(s[k], c))
    decreases Length(s) - i
  {
    if s[i] != 0 && !Matches(s[i], c) {
      FindFromMeaning(s, c, i + 1);
    }
  }

  /** strchr(s, c), as an index into s. */
  method StrChr(s: seq<u8>, c: int) returns (r: Option<nat>)
    requires Terminated(s)
    ensures r == FindFrom(s, c, 0)
  {
    var i := 0;
    while s[i] != 0
      invariant i <= Length(s) && FindFrom(s, c, 0) == FindFrom(s, c, i)
      decreases Length(s) - i
    {
      if Matches(s[i], c) {
        return Some(i);
      }
      i := i + 1;
    }
    return if c == 0 then Some(i) else None;
  }

  /** The last character before index i equal to c, or the one remembered so far. */
  function LastBefore(s: seq<u8>, c: int, i: nat): (r: Option<nat>)
    requires i <= |s|
    ensures r.Some? ==> r.value < i && Matches(s[r.value], c) && forall k :: r.value < k < i ==> !Matches(s[k], c)
    ensures r.None? ==> forall k :: 0 <= k < i ==> !Matches(s[k], c)
  {
    if i == 0 then None
    else if Matches(s[i - 1], c) then Some(i - 1)
    else LastBefore(s, c, i - 1)
  }

  /** strrchr's result: the terminator for c = 0, otherwise the last match or NULL. */
  function FindLast(s: seq<u8>, c: int): (r: Option<nat>)
    requires Terminated(s)
  {
    if c == 0 then Some(Length(s)) else LastBefore(s, c, Length(s))
  }

  /** strrchr(s, c), as an index into s. */
  method StrRChr(s: seq<u8>, c: int) returns (r: Option<nat>)
    requires Terminated(s)
    ensures r == FindLast(s, c)
  {
    var last: Option<nat> := None;
    var i := 0;
    while s[i] != 0
      invariant i <= Length(s) && last == LastBefore(s, c, i)
      decreases Length(s) - i
    {
      if Matches(s[i], c) {
        last := Some(i);
      }
      i := i + 1;
    }
    if c == 0 {
      return Some(i);
    }
    return last;
  }

  /** strchr and strrchr agree exactly when c occurs at most once, and both find the terminator for c = 0. */
  lemma FirstAndLast(s: seq<u8>, c: int)
    requires Terminated(s)
    ensures c == 0 ==> FindFrom(s, c, 0) == FindLast(s, c) == Some(Length(s))
    ensures FindFrom(s, c, 0).None? <==> FindLast(s, c).None?
    ensures FindFrom(s, c, 0).Some? && FindLast(s, c).Some? ==> FindFrom(s, c, 0).value <= FindLast(s, c).value
    ensures FindFrom(s, c, 0) == FindLast(s, c) <==>
      forall i, j :: 0 <= i < j < Length(s) && Matches(s[i], c) ==> !Matches(s[j], c)
  {
    FindFromMeaning(s, c, 0);
    if c == 0 {
      assert forall k :: 0 <= k < Length(s) ==> !Matches(s[k], 0);
    } else if FindFrom(s, c, 0).Some? {
      var first := FindFrom(s, c, 0).value;
      var last := FindLast(s, c).value;
      if first == last {
        forall i, j | 0 <= i < j < Length(s) && Matches(s[i], c)
          ensures !Matches(s[j], c)
        {
          assert first <= i;
        }
      } else {
        assert first < last && Matches(s[first], c) && Matches(s[last], c);
      }
    }
  }
}
