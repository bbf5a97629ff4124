/**
 * The tables of ramdisk.c as the kernel keeps them: ramdisk_nodes and
 * dirent_list are arrays of 64 entries and ramdisk_count a field; every
 * operation is proved against the function of the same name in
 * RamdiskSpec. ramdisk_read, which only fills the caller's buffer, is a
 * method of its own.
 */
module Ramdisk {
  import opened Machine
  import opened Wrappers
  import opened RamdiskSpec

  /**
   * ramdisk_read(node, offset, size, buffer): copies ReadCount bytes of
   * the contents from offset into the buffer. This is the corrected read,
   * through the whole address (RamdiskSpec.ReadThroughPointer); the read
   * through the truncated impl is RamdiskSpec.ReadAsWritten.
   */
  method Read(node: FsNode, offset: u32, size: u32, buffer: array<u8>) returns (n: u32)
    requires node.length <= |node.data| && size <= buffer.Length
    modifies buffer
    ensures n == ReadCount(node.length, offset, size)
    ensures forall k :: 0 <= k < n ==> buffer[k] == node.data[offset + k]
    ensures buffer[n..] == old(buffer[n..])
  {
    n := ReadCount(node.length, offset, size);
    for i := 0 to n
      invariant forall k :: 0 <= k < i ==> buffer[k] == node.data[offset + k]
      invariant forall k :: i <= k < buffer.Length ==> buffer[k] == old(buffer[k])
    {
      buffer[i] := node.data[offset + i];
    }
  }

  class Ramdisk {
    const nodes: array<FsNode>
    const dirents: array<Dirent>
    var count: nat

    function State(): Disk
      reads this, nodes, dirents
    {
      Disk(nodes[..], dirents[..], count)
    }

    ghost predicate Ready()
      reads this, nodes, dirents
    {
      Wf(State()) && nodes.Length == MAX_RAMDISK_FILES && dirents.Length == MAX_RAMDISK_FILES
    }

    constructor()
      ensures Ready() && State() == Empty()
    {
      nodes := new FsNode[MAX_RAMDISK_FILES](_ => EMPTY_NODE);
      dirents := new Dirent[MAX_RAMDISK_FILES](_ => EMPTY_DIRENT);
      count := 0;
    }

    /** ramdisk_readdir. */
    method ReadDir(index: u32) returns (r: Option<Dirent>)
      requires Ready()
      ensures r == RamdiskSpec.ReadDir(State(), index)
    {
      if index >= count {
        return None;
      }
      return Some(dirents[index]);
    }

    /** ramdisk_finddir: the table scan with its character-by-character comparison. */
    method FindDir(name: seq<char>) returns (r: Option<nat>)
      requires Ready()
      ensures r == RamdiskSpec.FindDir(State(), name)
    {
      for i := 0 to count
        invariant forall j :: 0 <= j < i ==> nodes[j].name != name
      {
        var m := SameName(nodes[i].name, name);
        if m {
          assert FindFrom(nodes[..], count, name, 0).Some?;
          return Some(i);
        }
      }
      return None;
    }

    /** ramdisk_add_file, with the contents at address. */
    method AddFile(name: seq<char>, contents: seq<u8>, address: u64)
      requires Ready() && |contents| < U32_LIMIT
      modifies this, nodes, dirents
      ensures Ready() && State() == RamdiskSpec.AddFile(old(State()), name, contents, address)
    {
      if count >= MAX_RAMDISK_FILES {
        return;
      }
      var stored := CopyName(name);
      nodes[count] := FsNode(stored, FS_FILE, |contents|, Wrap32(address), contents);
      var entry := CopyName(name);
      dirents[count] := Dirent(entry, count);
      count := count + 1;
    }

    /** ramdisk_init. */
    method Init(at: Literals) returns (root: FsNode)
      requires Ready()
      modifies this, nodes, dirents
      ensures Ready() && (State(), root) == RamdiskSpec.Init(old(State()), at)
    {
      AddFile("welcome.txt", Ascii(WELCOME_TXT), at.welcome);
      AddFile("admin.cfg", Ascii(ADMIN_CFG), at.admin);
      AddFile("readme.md", Ascii(README_MD), at.readme);
      return ROOT;
    }
  }

  /** The comparison loop of ramdisk_finddir: a match exactly when the two names are equal. */
  method SameName(a: seq<char>, b: seq<char>) returns (m: bool)
    ensures m <==> a == b
  {
    var i := 0;
    while i < |a| && i < |b|
      invariant i <= |a| && i <= |b| && a[..i] == b[..i]
    {
      if a[i] != b[i] {
        return false;
      }
      i := i + 1;
    }
    m := i == |a| && i == |b|;
    if !m {
      assert |a| != |b|;
    } else {
      assert a == a[..i] && b == b[..i];
    }
  }

  /** The name-copy loop of ramdisk_add_file. */
  method CopyName(name: seq<char>) returns (r: seq<char>)
    ensures r == StoredName(name)
  {
    r := [];
    var i := 0;
    while i < |name| && i < MAX_FILENAME - 1
      invariant i <= |name| && i <= MAX_FILENAME - 1 && r == name[..i]
    {
      r := r + [name[i]];
      i := i + 1;
    }
  }
}
