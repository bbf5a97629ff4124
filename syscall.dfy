/**
 * The system call layer of syscall.c as the kernel keeps it: syscall_table
 * is an array of TABLE_SIZE entries and current_errno a field, with the
 * console and user memory the calls reach. Every operation is proved
 * against the function of the same name in SyscallSpec.
 */
module Syscall {
  import opened Machine
  import opened Wrappers
  import opened SyscallSpec

  /** validate_string: the scan for a NUL among the first max_len bytes. */
  method ValidateString(mem: Memory, str: u64, maxLen: u64) returns (ok: bool)
    ensures ok == ValidString(mem, str, maxLen)
  {
    if !ValidUserPointer(str, 1) {
      return false;
    }
    for i := 0 to maxLen
      invariant forall j :: 0 <= j < i ==> ByteAt(mem, str, j) != 0
    {
      if mem(Wrap64(str + i)) == 0 {
        assert ByteAt(mem, str, i) == 0;
        return true;
      }
    }
    return false;
  }

  class Syscalls {
    const table: array<Option<Handler>>
    var errno: int
    var console: seq<u8>
    var mem: Memory

    function State(): Sys
      reads this, table
    {
      Sys(table[..], errno, console, mem)
    }

    ghost predicate Ready()
      reads this, table
    {
      table.Length == TABLE_SIZE
    }

    /** The statics before syscall_init, over the given user memory. */
    constructor(memory: Memory)
      ensures Ready() && State() == Sys(seq(TABLE_SIZE, _ => None), 0, [], memory)
    {
      table := new Option<Handler>[TABLE_SIZE](_ => None);
      errno, console, mem := 0, [], memory;
    }

    /** syscall_init: the table cleared, then the ten wrappers installed. */
    method Init()
      requires Ready()
      modifies table
      ensures Ready() && State() == SyscallSpec.Init(old(State()))
    {
      forall n | 0 <= n < TABLE_SIZE {
        table[n] := None;
      }
      table[0] := Some(Exit);
      table[1] := Some(Fork);
      table[2] := Some(Read);
      table[3] := Some(Write);
      table[4] := Some(Open);
      table[5] := Some(Close);
      table[18] := Some(GetPid);
      table[39] := Some(Brk);
      table[100] := Some(Version);
      table[101] := Some(Info);
      assert forall n | 0 <= n < TABLE_SIZE :: table[n] == Table()[n];
    }

    /** syscall_handler; the debug log lines are not modelled. */
    method Handle(num: u64, a1: u64, a2: u64, a3: u64, a4: u64, a5: u64, a6: u64) returns (result: int)
      requires Ready()
      modifies this
      ensures Ready() && (State(), result) == SyscallSpec.Handle(old(State()), num, a1, a2, a3, a4, a5, a6)
    {
      errno := 0;
      if num >= TABLE_SIZE {
        errno := ENOSYS;
        return -1;
      }
      if table[num].None? {
        errno := ENOSYS;
        return -1;
      }
      result := Dispatch(table[num].value, a1, a2, a3);
    }

    /** The wrapper in a table slot, forwarding the raw arguments. */
    method Dispatch(h: Handler, a1: u64, a2: u64, a3: u64) returns (result: int)
      requires Ready()
      modifies this
      ensures Ready() && (State(), result) == SyscallSpec.Dispatch(old(State()), h, a1, a2, a3)
    {
      match h
      case Exit => result := 0;
      case Fork => errno := ENOSYS; result := -1;
      case Read => result := SysRead(AsInt32(a1), a2, a3);
      case Write => result := SysWrite(AsInt32(a1), a2, a3);
      case Open => result := SysOpen(a1);
      case Close => result := SysClose(AsInt32(a1));
      case GetPid => result := 1;
      case Brk => result := AsInt64(a1);
      case Version => result := AbiVersion();
      case Info => result := SysInfo(a1);
    }

    /** sys_read. */
    method SysRead(fd: int, buf: u64, count: u64) returns (result: int)
      requires Ready()
      modifies this
      ensures Ready() && (State(), result) == SyscallSpec.SysRead(old(State()), fd, buf, count)
    {
      if !ValidUserPointer(buf, count) {
        errno := EFAULT;
        return -1;
      }
      if fd < 0 {
        errno := EBADF;
        return -1;
      }
      return 0;
    }

    /** sys_write: stdout and stderr print the buffer one byte at a time. */
    method SysWrite(fd: int, buf: u64, count: u64) returns (result: int)
      requires Ready()
      modifies this
      ensures Ready() && (State(), result) == SyscallSpec.SysWrite(old(State()), fd, buf, count)
    {
      if !ValidUserPointer(buf, count) {
        errno := EFAULT;
        return -1;
      }
      if fd < 0 {
        errno := EBADF;
        return -1;
      }
      if fd == 1 || fd == 2 {
        ghost var before := console;
        for i := 0 to count
          invariant console == before + Load(mem, buf, i) && mem == old(mem) && errno == old(errno)
        {
          assert Load(mem, buf, i + 1) == Load(mem, buf, i) + [mem(buf + i)];
          console := console + [mem(buf + i)];
        }
      }
      return AsInt64(count);
    }

    /** sys_open. */
    method SysOpen(path: u64) returns (result: int)
      requires Ready()
      modifies this
      ensures Ready() && (State(), result) == SyscallSpec.SysOpen(old(State()), path)
    {
      var ok := ValidateString(mem, path, PATH_MAX);
      if !ok {
        errno := EFAULT;
        return -1;
      }
      errno := ENOENT;
      return -1;
    }

    /** sys_close. */
    method SysClose(fd: int) returns (result: int)
      requires Ready()
      modifies this
      ensures Ready() && (State(), result) == SyscallSpec.SysClose(old(State()), fd)
    {
      if fd < 0 {
        errno := EBADF;
        return -1;
      }
      return 0;
    }

    /** sys_paradox_info: the four numeric fields, then strcpy of the name. */
    method SysInfo(buf: u64) returns (result: int)
      requires Ready()
      modifies this
      ensures Ready() && (State(), result) == SyscallSpec.SysInfo(old(State()), buf)
    {
      if !ValidUserPointer(buf, INFO_SIZE) {
        errno := EFAULT;
        return -1;
      }
      mem := Store(mem, buf, InfoBytes());
      return 0;
    }
  }
}
