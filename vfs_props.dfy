/**
 * Properties of the file-system functions of VfsSpec: descriptor
 * allocation, path resolution against the component-by-component reading
 * of a path, the memfs read/write round trip, creation, and the
 * bookkeeping of open, close, read and write.
 */
module VfsProps {
  import opened Machine
  import opened Wrappers
  import opened VfsSpec

  // ---------------------------------------------------------------------
  // Descriptors

  /** After vfs_init exactly descriptors 0, 1 and 2 are in use, so the first one handed out is 3. */
  lemma InitReservesStdio(fs: Fs)
    requires Wf(fs)
    ensures forall i :: 0 <= i < MAX_FDS ==> (Init(fs).0.fds[i].inUse <==> i < 3)
    ensures FreeFd(Init(fs).0.fds, 3) == 3
  {
  }

  // ---------------------------------------------------------------------
  // Path resolution

  /** Components as a path is made of them: non-empty and free of slashes. */
  predicate Components(comps: seq<seq<char>>)
  {
    forall i :: 0 <= i < |comps| ==> comps[i] != [] && forall j :: 0 <= j < |comps[i]| ==> comps[i][j] != '/'
  }

  lemma JoinStart(comps: seq<seq<char>>)
    requires Components(comps) && comps != []
    ensures Join(comps) != [] && Join(comps)[0] != '/'
  {
    assert comps[0] != [];
    if |comps| > 1 {
      assert Join(comps) == comps[0] + ("/" + Join(comps[1..]));
      assert Join(comps)[0] == comps[0][0];
    }
  }

  /** Extra leading slashes do not matter. */
  lemma ResolveSlash(nodes: seq<Node>, cur: nat, p: seq<char>)
    requires NodesOk(nodes) && cur < |nodes|
    ensures Resolve(nodes, cur, "/" + p) == Resolve(nodes, cur, p)
  {
    assert ("/" + p)[1..] == p;
    assert DropSlashes("/" + p) == DropSlashes(p);
  }

  /** A path made only of slashes, the empty path included, names the node it starts from. */
  lemma ResolveOnlySlashes(nodes: seq<Node>, cur: nat, p: seq<char>)
    requires NodesOk(nodes) && cur < |nodes|
    requires forall i :: 0 <= i < |p| ==> p[i] == '/'
    ensures Resolve(nodes, cur, p) == Some(cur)
  {
  }

  /** The component length is the index of the first slash. */
  lemma {:induction false} ComponentLengthAt(p: seq<char>, k: nat)
    requires k <= |p| && (k == |p| || p[k] == '/')
    requires forall i :: 0 <= i < k ==> p[i] != '/'
    ensures ComponentLength(p) == k
  {
    if k > 0 {
      ComponentLengthAt(p[1..], k - 1);
    }
  }

  /** The first component of c + "/" + rest, when c is a component, is c. */
  lemma FirstComponent(c: seq<char>, rest: seq<char>)
    requires forall j :: 0 <= j < |c| ==> c[j] != '/'
    ensures var p := c + "/" + rest; ComponentLength(p) == |c| && p[..|c|] == c && p[|c|..] == "/" + rest
    ensures ComponentLength(c) == |c|
  {
    var p := c + "/" + rest;
    SplitAtSlash(c, rest);
    ComponentLengthAt(p, |c|);
    ComponentLengthAt(c, |c|);
  }

  lemma SplitAtSlash(c: seq<char>, rest: seq<char>)
    requires forall j :: 0 <= j < |c| ==> c[j] != '/'
    ensures var p := c + "/" + rest;
      p[|c|] == '/' && (forall i :: 0 <= i < |c| ==> p[i] != '/') && p[..|c|] == c && p[|c|..] == "/" + rest
  {
    var p := c + "/" + rest;
    assert forall i :: 0 <= i < |c| ==> p[i] == c[i];
    assert p[..|c|] == c;
    assert p[|c|..] == "/" + rest;
  }

  /**
   * vfs_resolve_path_recursive reads a path component by component: on a
   * path of components joined by single slashes it gives what taking the
   * components one after the other gives ("." stays, ".." climbs unless at
   * a node without parent, a name is the first child of that name, a
   * missing one ends in NULL).
   */
  lemma {:induction false} ResolveJoin(nodes: seq<Node>, cur: nat, comps: seq<seq<char>>)
    requires NodesOk(nodes) && cur < |nodes| && Components(comps)
    ensures Resolve(nodes, cur, Join(comps)) == Walk(nodes, cur, comps)
    decreases |comps|
  {
    if comps == [] {
      assert DropSlashes([]) == [];
    } else {
      var c := comps[0];
      JoinStart(comps);
      var p := Join(comps);
      assert DropSlashes(p) == p;
      if |comps| == 1 {
        FirstComponent(c, []);
        assert p[..|c|] == c;
      } else {
        var rest := Join(comps[1..]);
        assert p == c + "/" + rest;
        FirstComponent(c, rest);
        var next := Step(nodes, cur, c);
        if next.Some? {
          assert Components(comps[1..]) by {
            forall i | 0 <= i < |comps[1..]| ensures comps[1..][i] != [] {
              assert comps[1..][i] == comps[i + 1];
            }
          }
          ResolveSlash(nodes, next.value, rest);
          ResolveJoin(nodes, next.value, comps[1..]);
        }
      }
    }
  }

  /** "." names the node itself; ".." its parent, or itself at the root. */
  lemma DotAndDotDot(nodes: seq<Node>, cur: nat)
    requires NodesOk(nodes) && cur < |nodes|
    ensures Resolve(nodes, cur, ".") == Some(cur)
    ensures Resolve(nodes, cur, "..") == Some(if nodes[cur].parent.Some? then nodes[cur].parent.value else cur)
  {
    assert DropSlashes(".") == ".";
    assert DropSlashes("..") == "..";
    ComponentLengthAt(".", 1);
    ComponentLengthAt("..", 2);
    assert "."[..1] == ".";
    assert ".."[..2] == "..";
  }

  // ---------------------------------------------------------------------
  // memfs read and write

  /**
   * memfs_read copies nothing from a file without a page or at an offset
   * at or past its size, and otherwise min(size, node size - offset) bytes
   * starting at the offset.
   */
  lemma ReadCopies(n: Node, size: nat, offset: nat)
    requires Sized(n)
    ensures var r := MemRead(n, size, offset);
      (n.data.None? || offset >= n.size ==> r == []) &&
      (n.data.Some? && offset < n.size ==>
         |r| == Min(size, n.size - offset) &&
         forall i :: 0 <= i < |r| ==> r[i] == n.data.value[offset + i])
  {
  }

  /**
   * memfs_write: -1 exactly when the first write finds no page; otherwise
   * min(size, PAGE_SIZE - offset) bytes are written at the offset and read
   * back unchanged, the rest of the page (zero on a first write) is kept,
   * the size becomes max(size, offset + written), and no other node changes.
   */
  lemma WriteThenRead(fs: Fs, id: nat, buf: seq<u8>, offset: nat)
    requires Wf(fs) && id < |fs.nodes| && offset <= PAGE_SIZE
    ensures var (fs', count) := MemWrite(fs, id, buf, offset);
      var n := fs.nodes[id];
      var n' := fs'.nodes[id];
      (count == -1 <==> n.data.None? && fs.freePages == 0) &&
      (count != -1 ==>
         count == Min(|buf|, PAGE_SIZE - offset) &&
         n'.size == Max(n.size, offset + count) &&
         MemRead(n', count, offset) == buf[..count] &&
         n'.data.Some? &&
         (forall k :: 0 <= k < PAGE_SIZE && !(offset <= k < offset + count) ==>
            n'.data.value[k] == (if n.data.Some? then n.data.value[k] else 0))) &&
      (forall j :: 0 <= j < |fs.nodes| && j != id ==> fs'.nodes[j] == fs.nodes[j])
  {
    var n := fs.nodes[id];
    if !(n.data.None? && fs.freePages == 0) {
      var page := if n.data.Some? then n.data.value else ZeroPage();
      assert NodeOk(n, |fs.nodes|);
      var count := if offset + |buf| > PAGE_SIZE then PAGE_SIZE - offset else |buf|;
      var page' := page[..offset] + buf[..count] + page[offset + count..];
      assert page'[offset..offset + count] == buf[..count];
      forall k | 0 <= k < PAGE_SIZE && !(offset <= k < offset + count)
        ensures page'[k] == page[k]
      {
        if k >= offset + count {
          assert page'[k] == page[offset + count..][k - offset - count];
        }
      }
    }
  }

  // ---------------------------------------------------------------------
  // Creation

  /**
   * memfs_create succeeds exactly for a directory parent without a child of
   * that name, with a page to spare. The new node then heads the parent's
   * child list, so a lookup of its (truncated) name finds it; it is a
   * fresh unlinked-below node with neither file nor directory operations,
   * and every other node except the parent is unchanged.
   */
  lemma CreateOutcome(fs: Fs, parent: nat, name: seq<char>, kind: u32)
    requires Wf(fs) && parent < |fs.nodes|
    ensures var (fs', res) := Create(fs, parent, name, kind);
      (res == 0 <==> fs.nodes[parent].kind == VFS_DIRECTORY &&
                     MemLookup(fs.nodes, parent, name).None? && fs.freePages > 0) &&
      (res != 0 ==> fs' == fs) &&
      (res == 0 ==>
         var id := |fs.nodes|;
         |fs'.nodes| == id + 1 && fs'.freePages == fs.freePages - 1 &&
         fs'.nodes[parent].children == [id] + fs.nodes[parent].children &&
         fs'.nodes[id] == FreshNode(name, kind).(parent := Some(parent)) &&
         !fs'.nodes[id].fileOps && !fs'.nodes[id].dirOps &&
         MemLookup(fs'.nodes, parent, Truncate(name, MAX_NAME - 1)) == Some(id) &&
         forall j :: 0 <= j < id && j != parent ==> fs'.nodes[j] == fs.nodes[j])
  {
  }

  /**
   * What vfs_mkdir does. The path, cut to a page, is split at its last
   * slash. The call succeeds exactly when the framework is initialised,
   * the part before the slash resolves to a directory with directory
   * operations, and memfs_create succeeds for the part after it (no child
   * of that name, and a page to spare besides the one holding the path
   * copy). The new node is then a directory listed first under the
   * parent and found there by the (truncated) last component, a page is
   * used, and no other node changes. On failure nothing changes, with
   * -EINVAL, -ENOMEM, -ENOTDIR, -ENOSYS or memfs_create's error.
   */
  lemma MkdirOutcome(fs: Fs, path: seq<char>)
    requires Wf(fs)
    ensures var (fs', res) := Mkdir(fs, path);
      var copy := Truncate(path, PAGE_SIZE - 1);
      var slash := LastSlash(copy);
      var parent := if slash.Some? then ResolvePath(fs, copy[..slash.value]) else None;
      var name := if slash.Some? then copy[slash.value + 1..] else [];
      (res == 0 <==>
         fs.initialized && parent.Some? && fs.nodes[parent.value].kind == VFS_DIRECTORY &&
         fs.nodes[parent.value].dirOps && MemLookup(fs.nodes, parent.value, name).None? && fs.freePages > 1) &&
      (res != 0 ==> fs' == fs) &&
      (!fs.initialized ==> res == -EINVAL) &&
      (fs.initialized && fs.freePages == 0 ==> res == -ENOMEM) &&
      (fs.initialized && fs.freePages > 0 && slash.None? ==> res == -EINVAL) &&
      ((fs.initialized && fs.freePages > 0 && slash.Some? && (parent.None? || fs.nodes[parent.value].kind != VFS_DIRECTORY))
         ==> res == -ENOTDIR) &&
      (res == 0 ==>
         var id := |fs.nodes|;
         |fs'.nodes| == id + 1 && fs'.freePages == fs.freePages - 1 &&
         fs'.nodes[id].kind == VFS_DIRECTORY && fs'.nodes[id].parent == parent &&
         fs'.nodes[parent.value].children == [id] + fs.nodes[parent.value].children &&
         MemLookup(fs'.nodes, parent.value, Truncate(name, MAX_NAME - 1)) == Some(id) &&
         forall j :: 0 <= j < id && j != parent.value ==> fs'.nodes[j] == fs.nodes[j])
  {
    var copy := Truncate(path, PAGE_SIZE - 1);
    var slash := LastSlash(copy);
    if fs.initialized && fs.freePages > 0 && slash.Some? {
      var parent := ResolvePath(fs, copy[..slash.value]);
      if parent.Some? && fs.nodes[parent.value].kind == VFS_DIRECTORY && fs.nodes[parent.value].dirOps {
        CreateOutcome(fs.(freePages := fs.freePages - 1), parent.value, copy[slash.value + 1..], VFS_DIRECTORY);
      }
    }
  }

  /** A node without the memfs file operations (every node memfs_create made) reads as -ENOSYS. */
  lemma ReadWithoutFileOps(fs: Fs, fd: int, size: nat)
    requires Wf(fs) && !BadFd(fs, fd)
    requires fs.fds[fd].node.Some? && !fs.nodes[fs.fds[fd].node.value].fileOps
    ensures Read(fs, fd, size) == (fs, -ENOSYS, [])
    ensures Write(fs, fd, []).1 == -ENOSYS
  {
  }

  // ---------------------------------------------------------------------
  // Open and close

  /**
   * What vfs_open does with a node that exists: -EMFILE with nothing
   * changed when descriptors 3 to 255 are all in use; otherwise the lowest
   * free one, now in use with the flags at position 0 on that node, whose
   * reference count goes up by one (as a uint32_t) and whose size becomes 0
   * under O_TRUNC on a file. Nothing else changes.
   */
  ghost predicate OpenedNode(fs: Fs, id: nat, flags: u32, fs': Fs, fd: int)
    requires Wf(fs) && id < |fs.nodes|
  {
    var n := fs.nodes[id];
    (fd == -EMFILE <==> forall i :: 3 <= i < MAX_FDS ==> fs.fds[i].inUse) &&
    (fd == -EMFILE ==> fs' == fs) &&
    (fd != -EMFILE ==>
       3 <= fd < MAX_FDS && !fs.fds[fd].inUse &&
       (forall i :: 3 <= i < fd ==> fs.fds[i].inUse) &&
       fs'.fds == fs.fds[fd := Fd(true, flags, 0, Some(id))] &&
       |fs'.nodes| == |fs.nodes| &&
       fs'.nodes[id].refCount == Wrap32(n.refCount + 1) &&
       fs'.nodes[id].size == (if Flag(flags, O_TRUNC) && n.kind == VFS_FILE then 0 else n.size) &&
       fs'.nodes[id].data == n.data &&
       forall j :: 0 <= j < |fs.nodes| && j != id ==> fs'.nodes[j] == fs.nodes[j])
  }

  /** vfs_open of a path that resolves opens the node it resolves to. */
  lemma OpenExisting(fs: Fs, path: seq<char>, flags: u32)
    requires Wf(fs) && fs.initialized && ResolvePath(fs, path).Some?
    ensures ResolvePath(fs, path).value < |fs.nodes|
    ensures var (fs', fd) := Open(fs, path, flags);
      OpenedNode(fs, ResolvePath(fs, path).value, flags, fs', fd)
  {
    var node := ResolvePath(fs, path);
    assert Open(fs, path, flags) == OpenNode(fs, node, flags);
    OpenNodeOutcome(fs, node.value, flags);
  }

  /** The descriptor-allocating part of vfs_open, for a node that exists. */
  lemma OpenNodeOutcome(fs: Fs, id: nat, flags: u32)
    requires Wf(fs) && id < |fs.nodes|
    ensures var (fs', fd) := OpenNode(fs, Some(id), flags);
      OpenedNode(fs, id, flags, fs', fd)
  {
    var fd := FreeFd(fs.fds, 3);
    assert fd == -1 <==> forall i :: 3 <= i < MAX_FDS ==> fs.fds[i].inUse;
  }

  /** Before vfs_init, and for a missing path without O_CREAT, vfs_open changes nothing. */
  lemma OpenFails(fs: Fs, path: seq<char>, flags: u32)
    requires Wf(fs)
    ensures !fs.initialized ==> Open(fs, path, flags) == (fs, -1)
    ensures fs.initialized && ResolvePath(fs, path).None? && !Flag(flags, O_CREAT) ==>
      Open(fs, path, flags) == (fs, -ENOENT)
  {
  }

  /**
   * vfs_close: -EBADF with nothing changed for a descriptor out of range or
   * not in use; otherwise 0, the descriptor is cleared and its node
   * released (its count drops by one, as a uint32_t).
   */
  lemma CloseOutcome(fs: Fs, fd: int)
    requires Wf(fs)
    ensures var (fs', res) := Close(fs, fd);
      (BadFd(fs, fd) ==> fs' == fs && res == -EBADF) &&
      (!BadFd(fs, fd) ==>
         res == 0 && fs'.fds == fs.fds[fd := Fd(false, 0, 0, None)] &&
         (fs.fds[fd].node.Some? ==>
            var id := fs.fds[fd].node.value;
            fs'.nodes == fs.nodes[id := fs.nodes[id].(refCount := Wrap32(fs.nodes[id].refCount - 1))]))
  {
  }

  /** Opening an existing node and closing the descriptor leaves its reference count as it was (below the uint32_t limit). */
  lemma OpenThenClose(fs: Fs, path: seq<char>, flags: u32)
    requires Wf(fs) && fs.initialized && ResolvePath(fs, path).Some?
    requires fs.nodes[ResolvePath(fs, path).value].refCount < U32_LIMIT - 1
    ensures var (fs1, fd) := Open(fs, path, flags);
      fd >= 0 ==>
        var (fs2, res) := Close(fs1, fd);
        var id := ResolvePath(fs, path).value;
        res == 0 && fs2.fds == fs.fds && fs2.nodes[id].refCount == fs.nodes[id].refCount
  {
    OpenExisting(fs, path, flags);
    var r := Open(fs, path, flags);
    CloseOpened(fs, ResolvePath(fs, path).value, flags, r.0, r.1);
  }

  /** Closing a descriptor that vfs_open just filled for node id gives back the descriptors and the count. */
  lemma CloseOpened(fs: Fs, id: nat, flags: u32, fs1: Fs, fd: int)
    requires Wf(fs) && Wf(fs1) && id < |fs.nodes| && fs.nodes[id].refCount < U32_LIMIT - 1
    requires OpenedNode(fs, id, flags, fs1, fd)
    ensures fd >= 0 ==>
      var (fs2, res) := Close(fs1, fd);
      res == 0 && fs2.fds == fs.fds && fs2.nodes[id].refCount == fs.nodes[id].refCount
  {
    if fd >= 0 {
      assert fd != -EMFILE;
      var count := fs.nodes[id].refCount;
      assert fs1.nodes[id].refCount == count + 1;
      assert Wrap32(fs1.nodes[id].refCount - 1) == count;
      assert !BadFd(fs1, fd) && fs1.fds[fd].node == Some(id);
      CloseOutcome(fs1, fd);
      assert FdOk(fs.fds[fd], |fs.nodes|);
      var z := Fd(false, 0, 0, None);
      assert fs.fds[fd] == z;
      assert fs1.fds[fd := z] == fs.fds[fd := z];
      assert fs.fds[fd := z] == fs.fds by {
        assert forall i :: 0 <= i < |fs.fds| ==> fs.fds[fd := z][i] == fs.fds[i];
      }
    }
  }

  // ---------------------------------------------------------------------
  // Read and write through a descriptor

  /** vfs_read: -EBADF for a bad descriptor; otherwise the bytes memfs_read gives at the position, which advances by their number. */
  lemma ReadAdvances(fs: Fs, fd: int, size: nat)
    requires Wf(fs)
    ensures var (fs', res, bytes) := Read(fs, fd, size);
      (BadFd(fs, fd) ==> res == -EBADF && fs' == fs) &&
      (!BadFd(fs, fd) && fs.fds[fd].node.Some? && fs.nodes[fs.fds[fd].node.value].fileOps ==>
         var f := fs.fds[fd];
         bytes == MemRead(fs.nodes[f.node.value], size, f.position) && res == |bytes| &&
         fs'.nodes == fs.nodes &&
         fs'.fds == fs.fds[fd := f.(position := f.position + |bytes|)])
  {
  }

  /**
   * vfs_write: the bytes go to the position, or to the end of the file
   * with O_APPEND. After a write of at least one byte the position has
   * moved past them, and with O_APPEND it is the new size.
   */
  lemma WriteAdvances(fs: Fs, fd: int, buf: seq<u8>)
    requires Wf(fs)
    ensures var (fs', res) := Write(fs, fd, buf);
      (BadFd(fs, fd) ==> res == -EBADF && fs' == fs) &&
      (!BadFd(fs, fd) && fs.fds[fd].node.Some? && fs.nodes[fs.fds[fd].node.value].fileOps ==>
         var f := fs.fds[fd];
         var id := f.node.value;
         var at := if Flag(f.flags, O_APPEND) then fs.nodes[id].size else f.position;
         (fs'.nodes, res) == (MemWrite(fs, id, buf, at).0.nodes, MemWrite(fs, id, buf, at).1) &&
         (res > 0 ==>
            fs'.fds[fd].position == (if Flag(f.flags, O_APPEND) then fs'.nodes[id].size else f.position + res)) &&
         forall i :: 0 <= i < MAX_FDS && i != fd ==> fs'.fds[i] == fs.fds[i])
  {
  }

  // ---------------------------------------------------------------------
  // Directory listing

  /** vfs_readdir on a memfs directory lists its children in chain order, then reports the end with 0. */
  lemma ReaddirLists(fs: Fs, fd: int, index: nat)
    requires Wf(fs) && !BadFd(fs, fd) && fs.fds[fd].node.Some?
    requires fs.nodes[fs.fds[fd].node.value].kind == VFS_DIRECTORY && fs.nodes[fs.fds[fd].node.value].dirOps
    ensures var n := fs.nodes[fs.fds[fd].node.value];
      var (res, d) := Readdir(fs, fd, index);
      (index >= |n.children| ==> res == 0 && d.None?) &&
      (index < |n.children| ==>
         res == 1 && d.Some? && d.value.name == fs.nodes[n.children[index]].name &&
         d.value.kind == fs.nodes[n.children[index]].kind && d.value.size == fs.nodes[n.children[index]].size)
  {
    var n := fs.nodes[fs.fds[fd].node.value];
    if index < |n.children| {
      assert NodeOk(n, |fs.nodes|);
      assert NodeOk(fs.nodes[n.children[index]], |fs.nodes|);
    }
  }

  // ---------------------------------------------------------------------
  // vfs_init

  /**
   * With seven pages to spare (the root, four directories, README.txt and
   * its page) vfs_init succeeds: the root, a directory, lists README.txt,
   * proc, dev, tmp and home (each creation prepends), and README.txt holds
   * the banner.
   */
  lemma InitLayout(fs: Fs)
    requires Wf(fs) && fs.freePages >= 7
    ensures var (fs', res) := Init(fs);
      res == 0 && fs'.initialized && fs'.root == Some(|fs.nodes|) &&
      var root := fs'.nodes[|fs.nodes|];
      root.kind == VFS_DIRECTORY && root.dirOps && InArena(root.children, |fs'.nodes|) &&
      Names(fs'.nodes, root.children) == ["README.txt", "proc", "dev", "tmp", "home"] &&
      fs'.nodes[root.children[0]].size == |WELCOME|
  {
    var withRoot := AddRoot(fs.(fds := ClearedFds()));
    var f4 := InitDirectories(withRoot, |fs.nodes|);
    var f5 := ReadmeStep(f4, |fs.nodes|, ["proc", "dev", "tmp", "home"]);
    assert Populate(withRoot, |fs.nodes|) == f5;
    InitNames();
  }

  lemma InitNames()
    ensures ["README.txt"] + ["proc", "dev", "tmp", "home"] == ["README.txt", "proc", "dev", "tmp", "home"]
  {
  }

  /** vfs_init's four memfs_create calls on a root without children. */
  lemma InitDirectories(fs: Fs, root: nat) returns (fs': Fs)
    requires Wf(fs) && root < |fs.nodes| && fs.nodes[root].kind == VFS_DIRECTORY && fs.nodes[root].dirOps
    requires fs.nodes[root].children == [] && fs.freePages >= 4
    ensures fs' == Create(Create(Create(Create(fs, root, "home", VFS_DIRECTORY).0,
                                        root, "tmp", VFS_DIRECTORY).0,
                                 root, "dev", VFS_DIRECTORY).0,
                          root, "proc", VFS_DIRECTORY).0
    ensures Wf(fs') && root < |fs'.nodes| && fs'.freePages == fs.freePages - 4
    ensures fs'.nodes[root].kind == VFS_DIRECTORY && fs'.nodes[root].dirOps
    ensures Names(fs'.nodes, fs'.nodes[root].children) == ["proc", "dev", "tmp", "home"]
    ensures fs'.fds == fs.fds && fs'.root == fs.root && fs'.initialized == fs.initialized
  {
    var f1 := CreateStep(fs, root, "home", []);
    var f2 := CreateStep(f1, root, "tmp", ["home"]);
    var f3 := CreateStep(f2, root, "dev", ["tmp", "home"]);
    fs' := CreateStep(f3, root, "proc", ["dev", "tmp", "home"]);
  }

  /** The README.txt step of vfs_init, with two pages to spare. */
  lemma ReadmeStep(fs: Fs, root: nat, before: seq<seq<char>>) returns (fs': Fs)
    requires Wf(fs) && root < |fs.nodes| && fs.freePages >= 2
    requires Names(fs.nodes, fs.nodes[root].children) == before
    ensures fs' == AddReadme(fs, root) && root < |fs'.nodes| && fs'.root == fs.root
    ensures fs'.nodes[root].kind == fs.nodes[root].kind && fs'.nodes[root].dirOps == fs.nodes[root].dirOps
    ensures InArena(fs'.nodes[root].children, |fs'.nodes|)
    ensures Names(fs'.nodes, fs'.nodes[root].children) == ["README.txt"] + before
    ensures fs'.nodes[fs'.nodes[root].children[0]].size == |WELCOME|
  {
    var kids := fs.nodes[root].children;
    assert NodeOk(fs.nodes[root], |fs.nodes|);
    var readme := FreshNode("README.txt", VFS_FILE).(fileOps := true);
    var fs1 := fs.(nodes := Link(fs.nodes, root, readme), freePages := fs.freePages - 1);
    LinkOk(fs.nodes, root, readme);
    FdsGrow(fs.fds, |fs.nodes|, |fs.nodes| + 1);
    var id := |fs.nodes|;
    WriteThenRead(fs1, id, Ascii(WELCOME), 0);
    fs' := MemWrite(fs1, id, Ascii(WELCOME), 0).0;
    assert |WELCOME| <= PAGE_SIZE;
    var kids' := fs'.nodes[root].children;
    assert kids' == [id] + kids;
    assert forall x :: 0 <= x < |fs.nodes| ==> fs'.nodes[x].name == fs.nodes[x].name;
    assert fs'.nodes[id].name == "README.txt";
    assert forall i :: 1 <= i < |kids'| ==> kids'[i] == kids[i - 1];
  }

  /** The names of a list of children. */
  function Names(nodes: seq<Node>, kids: seq<nat>): seq<seq<char>>
    requires InArena(kids, |nodes|)
  {
    seq(|kids|, i requires 0 <= i < |kids| => nodes[kids[i]].name)
  }

  /** One of vfs_init's memfs_create calls on the root, whose children so far have the names `before`. */
  lemma CreateStep(fs: Fs, root: nat, name: seq<char>, before: seq<seq<char>>) returns (fs': Fs)
    requires Wf(fs) && root < |fs.nodes| && fs.nodes[root].kind == VFS_DIRECTORY && fs.nodes[root].dirOps
    requires fs.freePages >= 1 && |name| < MAX_NAME && name !in before
    requires Names(fs.nodes, fs.nodes[root].children) == before
    ensures fs' == Create(fs, root, name, VFS_DIRECTORY).0 && Wf(fs')
    ensures fs'.freePages == fs.freePages - 1 && root < |fs'.nodes|
    ensures fs'.nodes[root].kind == VFS_DIRECTORY && fs'.nodes[root].dirOps
    ensures Names(fs'.nodes, fs'.nodes[root].children) == [name] + before
    ensures fs'.fds == fs.fds && fs'.root == fs.root && fs'.initialized == fs.initialized
  {
    var kids := fs.nodes[root].children;
    assert NodeOk(fs.nodes[root], |fs.nodes|);
    assert forall i :: 0 <= i < |kids| ==> fs.nodes[kids[i]].name == before[i];
    assert MemLookup(fs.nodes, root, name).None?;
    CreateOutcome(fs, root, name, VFS_DIRECTORY);
    fs' := Create(fs, root, name, VFS_DIRECTORY).0;
    assert Truncate(name, MAX_NAME - 1) == name;
    NamesPrepend(fs.nodes, fs'.nodes, kids, name);
  }

  /** The names of a child list with a new node in front: its name, then the old names. */
  lemma NamesPrepend(nodes: seq<Node>, nodes': seq<Node>, kids: seq<nat>, name: seq<char>)
    requires InArena(kids, |nodes|) && |nodes'| == |nodes| + 1 && nodes'[|nodes|].name == name
    requires forall j :: 0 <= j < |nodes| ==> nodes'[j].name == nodes[j].name
    ensures InArena([|nodes|] + kids, |nodes'|)
    ensures Names(nodes', [|nodes|] + kids) == [name] + Names(nodes, kids)
  {
    var k' := [|nodes|] + kids;
    assert forall i :: 1 <= i < |k'| ==> k'[i] == kids[i - 1];
  }
}
