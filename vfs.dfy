/**
 * The state of fs/vfs.c as the kernel keeps it: the descriptor table is a
 * fixed array of VFS_MAX_FDS entries, the nodes an arena the operations
 * grow and update, and root_node, vfs_initialized and the allocator's free
 * pages are fields. Every operation is proved to leave the state (and to
 * return) what the function of the same name in VfsSpec gives.
 */
module Vfs {
  import opened Machine
  import opened Wrappers
  import opened VfsSpec

  class Vfs {
    var nodes: seq<Node>
    const fds: array<Fd>
    var root: Option<nat>
    var initialized: bool
    var freePages: nat

    function State(): Fs
      reads this, fds
    {
      Fs(nodes, fds[..], root, initialized, freePages)
    }

    ghost predicate Ready()
      reads this, fds
    {
      fds.Length == MAX_FDS && Wf(State())
    }

    /** The zeroed statics before vfs_init, over an allocator with `pages` free pages. */
    constructor(pages: nat)
      ensures Ready() && State() == Fs([], seq(MAX_FDS, _ => Fd(false, 0, 0, None)), None, false, pages)
    {
      nodes, root, initialized, freePages := [], None, false, pages;
      fds := new Fd[MAX_FDS](_ => Fd(false, 0, 0, None));
    }

    /** vfs_allocate_fd: the scan from descriptor 3. */
    method AllocateFd() returns (fd: int)
      requires Ready()
      ensures fd == FreeFd(fds[..], 3)
    {
      for i := 3 to MAX_FDS
        invariant forall j :: 3 <= j < i ==> fds[j].inUse
      {
        if !fds[i].inUse {
          return i;
        }
      }
      return -1;
    }

    /** memfs_lookup: the walk along the child chain. */
    method Lookup(id: nat, name: seq<char>) returns (r: Option<nat>)
      requires Ready() && id < |nodes|
      ensures r == MemLookup(nodes, id, name)
    {
      assert NodeOk(nodes[id], |nodes|);
      if nodes[id].kind != VFS_DIRECTORY {
        return None;
      }
      var kids := nodes[id].children;
      var k := 0;
      while k < |kids|
        invariant k <= |kids|
        invariant forall j :: 0 <= j < k ==> nodes[kids[j]].name != name
      {
        if nodes[kids[k]].name == name {
          FindChildFirst(nodes, kids, name, k);
          return Some(kids[k]);
        }
        k := k + 1;
      }
      return None;
    }

    /** memfs_readdir: the walk to the index-th child. */
    method MemReaddir(id: nat, index: nat) returns (r: int, d: Option<Dirent>)
      requires Ready() && id < |nodes|
      ensures (r, d) == VfsSpec.MemReaddir(nodes, id, index)
    {
      assert NodeOk(nodes[id], |nodes|);
      var n := nodes[id];
      if n.kind != VFS_DIRECTORY {
        return -1, None;
      }
      var k := 0;
      while k < |n.children| && k < index
        invariant k <= |n.children| && k <= index
      {
        k := k + 1;
      }
      if k == |n.children| {
        return 0, None;
      }
      var c := nodes[n.children[k]];
      return 1, Some(Dirent(Truncate(c.name, MAX_NAME - 1), c.kind, c.size));
    }

    /** memfs_create. */
    method Create(parent: nat, name: seq<char>, kind: u32) returns (res: int)
      requires Ready() && parent < |nodes|
      modifies this
      ensures Ready() && (State(), res) == VfsSpec.Create(old(State()), parent, name, kind)
    {
      if nodes[parent].kind != VFS_DIRECTORY {
        return -1;
      }
      var found := Lookup(parent, name);
      if found.Some? {
        return -1;
      }
      if freePages == 0 {
        return -1;
      }
      freePages := freePages - 1;
      var n := FreshNode(name, kind);
      LinkOk(nodes, parent, n);
      FdsGrow(fds[..], |nodes|, |nodes| + 1);
      nodes := nodes[parent := nodes[parent].(children := [|nodes|] + nodes[parent].children)] + [n.(parent := Some(parent))];
      return 0;
    }

    /** memfs_write: the page is taken on the first write, then the bytes are copied in. */
    method MemWrite(id: nat, buf: seq<u8>, offset: nat) returns (count: int)
      requires Ready() && id < |nodes| && offset <= PAGE_SIZE
      modifies this
      ensures Ready() && (State(), count) == VfsSpec.MemWrite(old(State()), id, buf, offset)
    {
      var n := nodes[id];
      assert NodeOk(n, |nodes|);
      var page: seq<u8>;
      if n.data.None? {
        if freePages == 0 {
          return -1;
        }
        freePages := freePages - 1;
        page := ZeroPage();
      } else {
        page := n.data.value;
      }
      var written := WriteIntoPage(n, page, buf, offset);
      var n' := written.0;
      count := written.1;
      assert NodeOk(n', |nodes|);
      nodes := nodes[id := n'];
      assert NodesOk(nodes) by {
        forall i | 0 <= i < |nodes| ensures NodeOk(nodes[i], |nodes|) {
          if i != id { assert NodeOk(old(nodes)[i], |nodes|); }
        }
      }
    }

    /** vfs_init. */
    method Init() returns (res: int)
      requires Ready()
      modifies this, fds
      ensures Ready() && (State(), res) == VfsSpec.Init(old(State()))
    {
      forall i | 0 <= i < MAX_FDS {
        fds[i] := Fd(i < 3, 0, 0, None);
      }
      assert fds[..] == ClearedFds();
      if freePages == 0 {
        root := None;
        return -1;
      }
      ghost var cleared := State();
      var r := |nodes|;
      freePages := freePages - 1;
      nodes := nodes + [FreshNode("/", VFS_DIRECTORY).(dirOps := true)];
      root := Some(r);
      assert State() == AddRoot(cleared);
      assert Ready();
      var ignored := Create(r, "home", VFS_DIRECTORY);
      ignored := Create(r, "tmp", VFS_DIRECTORY);
      ignored := Create(r, "dev", VFS_DIRECTORY);
      ignored := Create(r, "proc", VFS_DIRECTORY);
      AddReadme(r);
      initialized := true;
      return 0;
    }

    /** The README.txt part of vfs_init. */
    method AddReadme(r: nat)
      requires Ready() && r < |nodes|
      modifies this
      ensures Ready() && State() == VfsSpec.AddReadme(old(State()), r)
    {
      if freePages == 0 {
        return;
      }
      var readme := FreshNode("README.txt", VFS_FILE).(fileOps := true);
      LinkOk(nodes, r, readme);
      FdsGrow(fds[..], |nodes|, |nodes| + 1);
      var id := |nodes|;
      freePages := freePages - 1;
      nodes := nodes[r := nodes[r].(children := [id] + nodes[r].children)] + [readme.(parent := Some(r))];
      var ignored := MemWrite(id, Ascii(WELCOME), 0);
    }

    /** vfs_resolve_path. */
    function ResolvePath(path: seq<char>): (r: Option<nat>)
      requires Ready()
      reads this, fds
      ensures r == VfsSpec.ResolvePath(State(), path)
    {
      if !initialized || root.None? then None else Resolve(nodes, root.value, path)
    }

    /** The descriptor part of vfs_open. */
    method OpenNode(node: Option<nat>, flags: u32) returns (fd: int)
      requires Ready() && (node.Some? ==> node.value < |nodes|)
      modifies this, fds
      ensures Ready() && (State(), fd) == VfsSpec.OpenNode(old(State()), node, flags)
    {
      if node.None? {
        return -ENOENT;
      }
      fd := AllocateFd();
      if fd < 0 {
        return -EMFILE;
      }
      fds[fd] := Fd(true, flags, 0, node);
      var n := nodes[node.value];
      var counted := n.(refCount := Wrap32(n.refCount + 1));
      if Flag(flags, O_TRUNC) && n.kind == VFS_FILE {
        counted := counted.(size := 0);
      }
      nodes := nodes[node.value := counted];
    }

    /** The O_CREAT part of vfs_open, once the path copy is allocated. */
    method CreateForOpen(path: seq<char>) returns (node: Option<nat>)
      requires Ready()
      modifies this
      ensures Ready() && (State(), node) == VfsSpec.CreateForOpen(old(State()), path)
    {
      var copy := Truncate(path, PAGE_SIZE - 1);
      var slash := LastSlash(copy);
      if slash.None? {
        return None;
      }
      var parent := ResolvePath(copy[..slash.value]);
      if parent.None? || !nodes[parent.value].dirOps {
        return None;
      }
      var res := Create(parent.value, copy[slash.value + 1..], VFS_FILE);
      if res == 0 {
        node := ResolvePath(path);
      } else {
        node := None;
      }
    }

    /** vfs_open. */
    method Open(path: seq<char>, flags: u32) returns (fd: int)
      requires Ready()
      modifies this, fds
      ensures Ready() && (State(), fd) == VfsSpec.Open(old(State()), path, flags)
    {
      if !initialized {
        return -1;
      }
      ghost var s0 := State();
      var node := ResolvePath(path);
      if node.None? && Flag(flags, O_CREAT) {
        if freePages == 0 {
          return -1;
        }
        freePages := freePages - 1;
        assert State() == s0.(freePages := s0.freePages - 1);
        node := CreateForOpen(path);
        ghost var s2 := State();
        freePages := freePages + 1;
        assert State() == s2.(freePages := s2.freePages + 1);
      }
      fd := OpenNode(node, flags);
    }

    /** vfs_close, with vfs_destroy_node. */
    method Close(fd: int) returns (res: int)
      requires Ready()
      modifies this, fds
      ensures Ready() && (State(), res) == VfsSpec.Close(old(State()), fd)
    {
      if fd < 0 || fd >= MAX_FDS || !fds[fd].inUse {
        return -EBADF;
      }
      var node := fds[fd].node;
      if node.Some? {
        var id := node.value;
        var count := Wrap32(nodes[id].refCount - 1);
        nodes := nodes[id := nodes[id].(refCount := count)];
        if count == 0 {
          freePages := freePages + 1;
        }
      }
      fds[fd] := Fd(false, 0, 0, None);
      return 0;
    }

    /** vfs_read: the result and the bytes placed in the buffer. */
    method Read(fd: int, size: nat) returns (res: int, bytes: seq<u8>)
      requires Ready()
      modifies fds
      ensures Ready() && (State(), res, bytes) == VfsSpec.Read(old(State()), fd, size)
    {
      if fd < 0 || fd >= MAX_FDS || !fds[fd].inUse {
        return -EBADF, [];
      }
      var f := fds[fd];
      if f.node.None? || !nodes[f.node.value].fileOps {
        return -ENOSYS, [];
      }
      bytes := MemRead(nodes[f.node.value], size, f.position);
      res := |bytes|;
      if res > 0 {
        fds[fd] := f.(position := f.position + res);
      }
    }

    /** vfs_write. */
    method Write(fd: int, buf: seq<u8>) returns (count: int)
      requires Ready()
      modifies this, fds
      ensures Ready() && (State(), count) == VfsSpec.Write(old(State()), fd, buf)
    {
      if fd < 0 || fd >= MAX_FDS || !fds[fd].inUse {
        return -EBADF;
      }
      var f := fds[fd];
      if f.node.None? || !nodes[f.node.value].fileOps {
        return -ENOSYS;
      }
      var id := f.node.value;
      var append := Flag(f.flags, O_APPEND);
      var at := if append then nodes[id].size else f.position;
      count := MemWrite(id, buf, at);
      if count > 0 {
        var pos := if append then nodes[id].size else f.position + count;
        fds[fd] := f.(position := pos);
      }
    }

    /** vfs_stat: size, type and permissions. */
    method StatPath(path: seq<char>) returns (res: int, st: Option<Stat>)
      requires Ready()
      ensures (res, st) == VfsSpec.StatPath(State(), path)
    {
      if !initialized {
        return -EINVAL, None;
      }
      var node := ResolvePath(path);
      if node.None? {
        return -ENOENT, None;
      }
      var n := nodes[node.value];
      return 0, Some(Stat(n.size, n.kind, n.permissions));
    }

    /** vfs_readdir. */
    method Readdir(fd: int, index: nat) returns (res: int, d: Option<Dirent>)
      requires Ready()
      ensures (res, d) == VfsSpec.Readdir(State(), fd, index)
    {
      if fd < 0 || fd >= MAX_FDS || !fds[fd].inUse {
        return -EBADF, None;
      }
      var node := fds[fd].node;
      if node.None? || nodes[node.value].kind != VFS_DIRECTORY || !nodes[node.value].dirOps {
        return -ENOTDIR, None;
      }
      res, d := MemReaddir(node.value, index);
    }

    /** vfs_mkdir: the path copy is a page of its own while the directory is created. */
    method Mkdir(path: seq<char>) returns (res: int)
      requires Ready()
      modifies this
      ensures Ready() && (State(), res) == VfsSpec.Mkdir(old(State()), path)
    {
      if !initialized {
        return -EINVAL;
      }
      if freePages == 0 {
        return -ENOMEM;
      }
      var copy := Truncate(path, PAGE_SIZE - 1);
      var slash := LastSlash(copy);
      if slash.None? {
        return -EINVAL;
      }
      var parent := ResolvePath(copy[..slash.value]);
      if parent.None? || nodes[parent.value].kind != VFS_DIRECTORY {
        return -ENOTDIR;
      }
      if !nodes[parent.value].dirOps {
        return -ENOSYS;
      }
      ghost var s0 := State();
      freePages := freePages - 1;
      assert State() == s0.(freePages := s0.freePages - 1);
      res := Create(parent.value, copy[slash.value + 1..], VFS_DIRECTORY);
      ghost var s1 := State();
      freePages := freePages + 1;
      assert State() == s1.(freePages := s1.freePages + 1);
    }
  }
}
