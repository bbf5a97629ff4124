/**
 * The second, smaller string library (libk/string.c), whose loops count
 * the length down. Its copies and fills have the same meaning as those of
 * lib/string.c, so they are proved against the same specification
 * functions.
 */
module KString {
  import opened Machine
  import opened CString

  /** k_memset(s, c, n): n bytes from d set to (uint8_t)c; returns s. */
  method KMemSet(mem: array<u8>, d: nat, c: int, n: nat) returns (r: nat)
    requires d + n <= mem.Length
    modifies mem
    ensures mem[..] == Fill(old(mem[..]), d, n, Wrap8(c)) && r == d
  {
    var p := d;
    var left := n;
    while left > 0
      invariant p == d + (n - left) && 0 <= left <= n
      invariant forall k :: 0 <= k < mem.Length ==> mem[k] == if d <= k < p then Wrap8(c) else old(mem[k])
    {
      left := left - 1;
      mem[p] := Wrap8(c);
      p := p + 1;
    }
    assert mem[..] == Fill(old(mem[..]), d, n, Wrap8(c));
    return d;
  }

  /** k_memcpy(dest, src, n): a forward byte copy; returns dest. */
  method KMemCpy(mem: array<u8>, d: nat, s: nat, n: nat) returns (r: nat)
    requires d + n <= mem.Length && s + n <= mem.Length
    modifies mem
    ensures mem[..] == CopyForward(old(mem[..]), d, s, n) && r == d
  {
    var pd, ps, left := d, s, n;
    while left > 0
      invariant 0 <= left <= n && pd == d + (n - left) && ps == s + (n - left)
      invariant mem[..] == CopyForward(old(mem[..]), d, s, n - left)
    {
      left := left - 1;
      mem[pd] := mem[ps];
      pd, ps := pd + 1, ps + 1;
    }
    return d;
  }

  /** k_strlen(s): the bytes before the first NUL. */
  method KStrLen(s: seq<u8>) returns (len: nat)
    requires Terminated(s)
    ensures len == Length(s)
  {
    len := 0;
    var p := 0;
    while true
      invariant p == len <= Length(s)
      decreases Length(s) - p
    {
      var b := s[p];
      p := p + 1;
      if b == 0 {
        return;
      }
      len := len + 1;
    }
  }
}
