/**
 * The system call layer of syscall.c as values: the 256-entry dispatch
 * table, current_errno, the console the write call echoes to, and user
 * memory as one byte per 64-bit address. The table entries are the
 * wrappers syscall_init installs, named by the call they forward to.
 */
module SyscallSpec {
  import opened Machine
  import opened Wrappers

  const TABLE_SIZE: int := 256

  /** The first kernel-space address; user pointers lie below it. */
  const KERNEL_BASE: int := 0xffff_8000_0000_0000

  const ENOENT: int := 2
  const EBADF: int := 9
  const EFAULT: int := 14
  const ENOSYS: int := 38

  /** The longest path sys_open accepts. */
  const PATH_MAX: int := 4096

  /** PARADOX_ABI_MAJOR, _MINOR and _PATCH. */
  const ABI_MAJOR: int := 1
  const ABI_MINOR: int := 0
  const ABI_PATCH: int := 0

  /** sizeof(struct paradox_info): two uint32_t, two uint64_t and a 32-byte name. */
  const INFO_SIZE: int := 56

  /** The wrappers syscall_init installs, by the sys_* function each forwards to. */
  datatype Handler = Exit | Fork | Read | Write | Open | Close | GetPid | Brk | Version | Info

  /** syscall_table, current_errno, the console and user memory. */
  datatype Sys = Sys(table: seq<Option<Handler>>, errno: int, console: seq<u8>, mem: Memory)

  predicate Wf(s: Sys)
  {
    |s.table| == TABLE_SIZE
  }

  /**
   * validate_user_pointer(ptr, size): not NULL, below kernel space, and
   * ptr + size does not wrap. The end of the range is not compared with
   * the kernel boundary.
   */
  function ValidUserPointer(ptr: u64, size: u64): (ok: bool)
    ensures ok <==> ptr != 0 && ptr < KERNEL_BASE && ptr + size < U64_LIMIT
  {
    if ptr == 0 then false
    else if ptr >= KERNEL_BASE then false
    else if Wrap64(ptr + size) < ptr then false
    else true
  }

  /** validate_string(str, max_len): a valid pointer with a NUL among its first max_len bytes. */
  predicate ValidString(mem: Memory, str: u64, maxLen: u64)
  {
    ValidUserPointer(str, 1) && exists i :: 0 <= i < maxLen && ByteAt(mem, str, i) == 0
  }

  /** The byte str[i]. */
  function ByteAt(mem: Memory, str: u64, i: int): u8
  {
    mem(Wrap64(str + i))
  }

  /** syscall_init's table: the ten wrappers at their call numbers, every other slot NULL. */
  function Table(): (t: seq<Option<Handler>>)
    ensures |t| == TABLE_SIZE
  {
    seq(TABLE_SIZE, n =>
      if n == 0 then Some(Exit) else if n == 1 then Some(Fork) else if n == 2 then Some(Read)
      else if n == 3 then Some(Write) else if n == 4 then Some(Open) else if n == 5 then Some(Close)
      else if n == 18 then Some(GetPid) else if n == 39 then Some(Brk)
      else if n == 100 then Some(Version) else if n == 101 then Some(Info) else None)
  }

  /** syscall_init; installing the INT 0x80 gate is not modelled. */
  function Init(s: Sys): (r: Sys)
    requires Wf(s)
    ensures Wf(r)
  {
    s.(table := Table())
  }

  /** sys_paradox_version: (major << 16) | (minor << 8) | patch. */
  function AbiVersion(): (v: int)
    ensures v == 0x10000
  {
    ABI_MAJOR * 0x1_0000 + ABI_MINOR * 0x100 + ABI_PATCH
  }

  /** What sys_paradox_info writes: the four numbers, then strcpy's "ParadoxOS" and its NUL; the rest of the name is untouched. */
  function InfoBytes(): (b: seq<u8>)
    ensures |b| == 34
  {
    Le(AbiVersion(), 4) + Le(0x01_0000, 4) + Le(0x1000_0000, 8) + Le(0x800_0000, 8) + Ascii("ParadoxOS") + [0]
  }

  /** sys_read: EFAULT for a bad buffer, then EBADF for a negative fd, otherwise end of file. */
  function SysRead(s: Sys, fd: int, buf: u64, count: u64): (res: (Sys, int))
  {
    if !ValidUserPointer(buf, count) then (s.(errno := EFAULT), -1)
    else if fd < 0 then (s.(errno := EBADF), -1)
    else (s, 0)
  }

  /** sys_write: the same checks; stdout and stderr echo the buffer to the console; every fd reports count written. */
  function SysWrite(s: Sys, fd: int, buf: u64, count: u64): (res: (Sys, int))
    requires Wf(s)
    ensures Wf(res.0)
  {
    if !ValidUserPointer(buf, count) then (s.(errno := EFAULT), -1)
    else if fd < 0 then (s.(errno := EBADF), -1)
    else if fd == 1 || fd == 2 then (s.(console := s.console + Load(s.mem, buf, count)), AsInt64(count))
    else (s, AsInt64(count))
  }

  /** sys_open: EFAULT for a bad path, ENOENT otherwise; it always fails. */
  function SysOpen(s: Sys, path: u64): (res: (Sys, int))
  {
    if !ValidString(s.mem, path, PATH_MAX) then (s.(errno := EFAULT), -1)
    else (s.(errno := ENOENT), -1)
  }

  /** sys_close: EBADF for a negative fd, 0 otherwise. */
  function SysClose(s: Sys, fd: int): (res: (Sys, int))
  {
    if fd < 0 then (s.(errno := EBADF), -1) else (s, 0)
  }

  /** sys_paradox_info: EFAULT for a bad buffer, otherwise the structure is filled in and 0 returned. */
  function SysInfo(s: Sys, buf: u64): (res: (Sys, int))
    requires Wf(s)
    ensures Wf(res.0)
  {
    if !ValidUserPointer(buf, INFO_SIZE) then (s.(errno := EFAULT), -1)
    else (s.(mem := Store(s.mem, buf, InfoBytes())), 0)
  }

  /** The wrapper h with the raw arguments: int parameters take the low 32 bits as signed. */
  function Dispatch(s: Sys, h: Handler, a1: u64, a2: u64, a3: u64): (res: (Sys, int))
    requires Wf(s)
    ensures Wf(res.0)
  {
    match h
    case Exit => (s, 0)
    case Fork => (s.(errno := ENOSYS), -1)
    case Read => SysRead(s, AsInt32(a1), a2, a3)
    case Write => SysWrite(s, AsInt32(a1), a2, a3)
    case Open => SysOpen(s, a1)
    case Close => SysClose(s, AsInt32(a1))
    case GetPid => (s, 1)
    case Brk => (s, AsInt64(a1))
    case Version => (s, AbiVersion())
    case Info => SysInfo(s, a1)
  }

  /** syscall_handler: errno cleared, ENOSYS for a number past the table or an empty slot, otherwise the entry's result. */
  function Handle(s: Sys, num: u64, a1: u64, a2: u64, a3: u64, a4: u64, a5: u64, a6: u64): (res: (Sys, int))
    requires Wf(s)
    ensures Wf(res.0)
  {
    var s0 := s.(errno := 0);
    if num >= TABLE_SIZE then (s0.(errno := ENOSYS), -1)
    else if s.table[num].None? then (s0.(errno := ENOSYS), -1)
    else Dispatch(s0, s.table[num].value, a1, a2, a3)
  }

  // ---------------------------------------------------------------------
  // Properties

  /** A range that starts in user space passes even when it runs into kernel space. */
  lemma RangeEndUnchecked()
    ensures ValidUserPointer(KERNEL_BASE - 1, 0x1000) && KERNEL_BASE - 1 + 0x1000 > KERNEL_BASE
  {
  }

  /** syscall_init registers exactly the ten calls, and nothing else of the state changes. */
  lemma InitTable(s: Sys, n: int)
    requires Wf(s) && 0 <= n < TABLE_SIZE
    ensures var r := Init(s);
      (r.table[n].Some? <==> n in {0, 1, 2, 3, 4, 5, 18, 39, 100, 101}) &&
      r.errno == s.errno && r.console == s.console && r.mem == s.mem
  {
  }

  /**
   * syscall_handler: a number of 256 or more, or one without a table
   * entry, gives -1 with ENOSYS and changes nothing else; a registered one
   * runs with errno cleared first.
   */
  lemma HandleOutcome(s: Sys, num: u64, a1: u64, a2: u64, a3: u64, a4: u64, a5: u64, a6: u64)
    requires Wf(s)
    ensures var (r, res) := Handle(s, num, a1, a2, a3, a4, a5, a6);
      (num >= TABLE_SIZE || s.table[num].None? ==> res == -1 && r == s.(errno := ENOSYS)) &&
      (num < TABLE_SIZE && s.table[num].Some? ==> (r, res) == Dispatch(s.(errno := 0), s.table[num].value, a1, a2, a3))
  {
  }

  /** errno is left non-zero only by a call that returns -1, and the table never changes. */
  lemma ErrnoOnlyOnFailure(s: Sys, num: u64, a1: u64, a2: u64, a3: u64, a4: u64, a5: u64, a6: u64)
    requires Wf(s)
    ensures var (r, res) := Handle(s, num, a1, a2, a3, a4, a5, a6);
      (r.errno != 0 ==> res == -1) && r.table == s.table && r.errno in {0, ENOENT, EBADF, EFAULT, ENOSYS}
  {
  }

  /** After syscall_init: version is 0x10000, getpid is 1, and a number in none of the ten slots is ENOSYS. */
  lemma AfterInit(s: Sys, num: u64, a1: u64, a2: u64, a3: u64)
    requires Wf(s) && num < TABLE_SIZE && num !in {0, 1, 2, 3, 4, 5, 18, 39, 100, 101}
    ensures Handle(Init(s), 100, a1, a2, a3, 0, 0, 0).1 == 0x10000
    ensures Handle(Init(s), 18, a1, a2, a3, 0, 0, 0).1 == 1
    ensures Handle(Init(s), num, a1, a2, a3, 0, 0, 0) == (Init(s).(errno := ENOSYS), -1)
  {
  }

  /**
   * sys_read and sys_write test the buffer before the descriptor: a bad
   * buffer is EFAULT whatever the fd, a good one with a negative fd is
   * EBADF; otherwise read returns 0 and write returns count, echoing the
   * buffer only for fds 1 and 2.
   */
  lemma ReadWriteChecks(s: Sys, fd: int, buf: u64, count: u64)
    requires Wf(s)
    ensures !ValidUserPointer(buf, count) ==>
      SysRead(s, fd, buf, count) == (s.(errno := EFAULT), -1) && SysWrite(s, fd, buf, count) == (s.(errno := EFAULT), -1)
    ensures ValidUserPointer(buf, count) && fd < 0 ==>
      SysRead(s, fd, buf, count) == (s.(errno := EBADF), -1) && SysWrite(s, fd, buf, count) == (s.(errno := EBADF), -1)
    ensures ValidUserPointer(buf, count) && fd >= 0 ==>
      SysRead(s, fd, buf, count) == (s, 0) && SysWrite(s, fd, buf, count).1 == AsInt64(count) &&
      SysWrite(s, fd, buf, count).0.console ==
        (if fd == 1 || fd == 2 then s.console + Load(s.mem, buf, count) else s.console)
  {
  }

  /** The echoed bytes are the buffer's, at addresses that do not wrap. */
  lemma WriteEchoesBuffer(s: Sys, buf: u64, count: u64, i: int)
    requires Wf(s) && ValidUserPointer(buf, count) && 0 <= i < count
    ensures SysWrite(s, 1, buf, count).0.console[|s.console| + i] == s.mem(buf + i)
  {
  }

  /** sys_open always returns -1: EFAULT exactly when the path is not a string of fewer than 4096 bytes in user space, ENOENT otherwise. */
  lemma OpenFails(s: Sys, path: u64)
    requires Wf(s)
    ensures var (r, res) := SysOpen(s, path);
      res == -1 && r == s.(errno := if ValidString(s.mem, path, PATH_MAX) then ENOENT else EFAULT)
  {
  }

  /** The close call: EBADF exactly for a negative fd. */
  lemma CloseOutcome(s: Sys, fd: int)
    ensures var (r, res) := SysClose(s, fd);
      (fd < 0 <==> res == -1) && r == (if fd < 0 then s.(errno := EBADF) else s)
  {
  }

  /** Reading back what sys_paradox_info wrote: abi_version is the ABI version 0x10000. */
  lemma InfoAbiVersion(s: Sys, buf: u64)
    requires Wf(s) && ValidUserPointer(buf, INFO_SIZE)
    ensures FromLe(Load(SysInfo(s, buf).0.mem, buf, 4)) == AbiVersion()
  {
    var m := SysInfo(s, buf).0.mem;
    StoreLoad(s.mem, buf, InfoBytes());
    InfoLayout();
    Pow256Widths();
    ReadBackField(m, buf, InfoBytes(), 0, 4, 0x10000, buf);
  }

  /** Reading back what sys_paradox_info wrote: kernel_version is 0x10000 (1.0.0). */
  lemma InfoKernelVersion(s: Sys, buf: u64)
    requires Wf(s) && ValidUserPointer(buf, INFO_SIZE)
    ensures FromLe(Load(SysInfo(s, buf).0.mem, buf + 4, 4)) == 0x01_0000
  {
    var m := SysInfo(s, buf).0.mem;
    StoreLoad(s.mem, buf, InfoBytes());
    InfoLayout();
    Pow256Widths();
    ReadBackField(m, buf, InfoBytes(), 4, 4, 0x01_0000, buf + 4);
  }

  /** Reading back what sys_paradox_info wrote: 256 MiB total and 128 MiB free. */
  lemma InfoMemory(s: Sys, buf: u64)
    requires Wf(s) && ValidUserPointer(buf, INFO_SIZE)
    ensures var m := SysInfo(s, buf).0.mem;
      FromLe(Load(m, buf + 8, 8)) == 0x1000_0000 && FromLe(Load(m, buf + 16, 8)) == 0x800_0000
  {
    var m := SysInfo(s, buf).0.mem;
    StoreLoad(s.mem, buf, InfoBytes());
    InfoLayout();
    Pow256Widths();
    ReadBackField(m, buf, InfoBytes(), 8, 8, 0x1000_0000, buf + 8);
    ReadBackField(m, buf, InfoBytes(), 16, 8, 0x800_0000, buf + 16);
  }

  /** The name reads back as "ParadoxOS" and its NUL; every byte outside the 34 written, the tail of the name included, keeps its value. */
  lemma InfoName(s: Sys, buf: u64)
    requires Wf(s) && ValidUserPointer(buf, INFO_SIZE)
    ensures var m := SysInfo(s, buf).0.mem;
      Load(m, buf + 24, 10) == Ascii("ParadoxOS") + [0] &&
      forall p :: !(buf <= p < buf + 34) ==> m(p) == s.mem(p)
  {
    var m := SysInfo(s, buf).0.mem;
    assert Load(m, buf + 24, 10) == Ascii("ParadoxOS") + [0] by {
      StoreLoad(s.mem, buf, InfoBytes());
      InfoNameBytes();
      LoadSlice(m, buf, 34, 24, 10);
    }
  }

  /** Bytes 24 to 33 of what sys_paradox_info writes: the name and its NUL. */
  lemma InfoNameBytes()
    ensures InfoBytes()[24..34] == Ascii("ParadoxOS") + [0]
  {
    var head := Le(AbiVersion(), 4) + Le(0x01_0000, 4) + Le(0x1000_0000, 8) + Le(0x800_0000, 8);
    assert InfoBytes() == head + (Ascii("ParadoxOS") + [0]);
  }

  /** A load of k bytes at offset off of an n-byte load is that slice of it. */
  lemma LoadSlice(m: Memory, a: int, n: nat, off: nat, k: nat)
    requires off + k <= n
    ensures Load(m, a + off, k) == Load(m, a, n)[off..off + k]
  {
  }

  /** Where each field sits in the bytes sys_paradox_info writes. */
  lemma InfoLayout()
    ensures var b := InfoBytes();
      b[0..4] == Le(0x10000, 4) && b[4..8] == Le(0x01_0000, 4) && b[8..16] == Le(0x1000_0000, 8) &&
      b[16..24] == Le(0x800_0000, 8) && b[24..34] == Ascii("ParadoxOS") + [0]
  {
    var b := InfoBytes();
    var f1, f2, f3, f4 := Le(AbiVersion(), 4), Le(0x01_0000, 4), Le(0x1000_0000, 8), Le(0x800_0000, 8);
    assert b == f1 + f2 + f3 + f4 + (Ascii("ParadoxOS") + [0]);
  }

  /** A field of n bytes at offset off of bytes loaded back reads as the value encoded there. */
  lemma ReadBackField(m: Memory, buf: u64, b: seq<u8>, off: nat, n: nat, v: nat, a: int)
    requires off + n <= |b| && buf + |b| < U64_LIMIT && Load(m, buf, |b|) == b && a == buf + off
    requires b[off..off + n] == Le(v, n) && v < Pow256(n)
    ensures FromLe(Load(m, a, n)) == v
  {
    assert Load(m, a, n) == b[off..off + n];
    LeRoundTrip(v, n);
  }
}
