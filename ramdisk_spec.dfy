/**
 * The read-only ramdisk of ramdisk.c as values: up to 64 files, each an fs_node_t
 * with its name, length and contents and a matching directory entry, and
 * a root directory whose readdir and finddir walk the table.
 *
 * A node keeps two things: impl, the uint32_t field (vfs.h) into which
 * ramdisk_add_file stores the contents' 64-bit address, so that only its
 * low 32 bits survive, and data, the contents that address points to.
 * The read through impl as written is ReadAsWritten; the model's read is
 * the corrected one, through the whole address, that is, of data.
 * Strings are the characters before their terminator.
 */
module RamdiskSpec {
  import opened Machine
  import opened Wrappers

  const MAX_RAMDISK_FILES: int := 64
  const MAX_FILENAME: int := 256

  /** fs_node_type_t. */
  const FS_FILE: u32 := 0
  const FS_DIRECTORY: u32 := 1

  /** The fs_node_t fields the ramdisk sets (the rest stay zero), and the contents impl was meant to point to. */
  datatype FsNode = FsNode(name: seq<char>, flags: u32, length: u32, impl: u32, data: seq<u8>)

  /** struct dirent. */
  datatype Dirent = Dirent(name: seq<char>, inode: u32)

  /** The statics ramdisk_nodes, dirent_list and ramdisk_count. */
  datatype Disk = Disk(nodes: seq<FsNode>, dirents: seq<Dirent>, count: nat)

  const EMPTY_NODE: FsNode := FsNode([], 0, 0, 0, [])
  const EMPTY_DIRENT: Dirent := Dirent([], 0)

  predicate Wf(d: Disk)
  {
    |d.nodes| == MAX_RAMDISK_FILES && |d.dirents| == MAX_RAMDISK_FILES && d.count <= MAX_RAMDISK_FILES
  }

  /** The zeroed statics. */
  function Empty(): (r: Disk)
    ensures Wf(r) && r.count == 0
  {
    Disk(seq(MAX_RAMDISK_FILES, _ => EMPTY_NODE), seq(MAX_RAMDISK_FILES, _ => EMPTY_DIRENT), 0)
  }

  // ---------------------------------------------------------------------
  // ramdisk_read

  /**
   * The number of bytes ramdisk_read copies, as intended: none when the
   * offset is past the end, otherwise the request cut at the end of the
   * file.
   */
  function ReadCount(length: u32, offset: u32, size: u32): (r: u32)
    ensures offset > length ==> r == 0
    ensures offset <= length ==> r == Min(size, length - offset)
  {
    if offset > length then 0
    else if offset + size > length then length - offset
    else size
  }

  /** The count as ramdisk_read computes it: offset + size is a uint32_t sum, which wraps. */
  function ReadCountAsWritten(length: u32, offset: u32, size: u32): (r: u32)
  {
    if offset > length then 0
    else if Wrap32(offset + size) > length then length - offset
    else size
  }

  /** Without wrap-around the two counts agree. */
  lemma ReadCountsAgree(length: u32, offset: u32, size: u32)
    requires offset + size < U32_LIMIT
    ensures ReadCountAsWritten(length, offset, size) == ReadCount(length, offset, size)
  {
  }

  /** A ten-byte file read from 5 with size 0xFFFFFFFF: the sum wraps to 4, so the whole size is kept and the copy runs far past the file. */
  lemma ReadCountWraps()
    ensures ReadCountAsWritten(10, 5, 0xFFFF_FFFF) == 0xFFFF_FFFF
    ensures ReadCount(10, 5, 0xFFFF_FFFF) == 5
  {
    assert Wrap32(5 + 0xFFFF_FFFF) == 4;
  }

  /**
   * ramdisk_read's copy as written, for the wrapping count: byte k comes
   * from the zero-extended uint32_t impl indexed by offset + k, itself a
   * uint32_t sum that wraps.
   */
  function ReadAsWritten(mem: Memory, node: FsNode, offset: u32, size: u32): (r: seq<u8>)
  {
    seq(ReadCountAsWritten(node.length, offset, size), k requires 0 <= k => mem(node.impl + Wrap32(offset + k)))
  }

  /**
   * The intended read: through the whole address, the bytes copied are
   * the contents from the offset on, as many as ReadCount allows.
   */
  lemma ReadThroughPointer(mem: Memory, address: int, contents: seq<u8>, offset: u32, size: u32)
    requires |contents| < U32_LIMIT && Load(mem, address, |contents|) == contents
    ensures offset <= |contents| ==>
      Load(mem, address + offset, ReadCount(|contents|, offset, size)) ==
      contents[offset..offset + ReadCount(|contents|, offset, size)]
  {
  }

  /**
   * Below 2 * 2^32 lies every byte the as-written read can touch, since
   * impl and the wrapped index are each below 2^32. Contents placed at
   * 2 * 2^32 or higher, as the kernel's higher-half string literals are,
   * are never read.
   */
  lemma ReadAsWrittenBelow(mem: Memory, node: FsNode, offset: u32, size: u32, k: int)
    requires 0 <= k < ReadCountAsWritten(node.length, offset, size)
    ensures ReadAsWritten(mem, node, offset, size)[k] == mem(node.impl + Wrap32(offset + k))
    ensures node.impl + Wrap32(offset + k) < 2 * U32_LIMIT
    ensures offset + k < U32_LIMIT ==> ReadAsWritten(mem, node, offset, size)[k] == mem(node.impl + offset + k)
  {
  }

  /**
   * The ten-byte file read from 5 with size 0xFFFFFFFF: the copy's index
   * offset + i wraps too, so byte 0xFFFFFFFB is read from impl itself.
   */
  lemma ReadIndexWraps(mem: Memory, node: FsNode)
    requires node.length == 10
    ensures |ReadAsWritten(mem, node, 5, 0xFFFF_FFFF)| == 0xFFFF_FFFF
    ensures ReadAsWritten(mem, node, 5, 0xFFFF_FFFF)[0xFFFF_FFFB] == mem(node.impl)
  {
    ReadCountWraps();
    assert Wrap32(5 + 0xFFFF_FFFB) == 0;
  }

  /**
   * A file added from contents at address 2 * 2^32 or above, in a memory
   * that is zero outside the contents: reading any byte of it as written
   * gives a zero, where the contents, a C string's characters, have none
   * (it is enough that the byte at the offset is not zero).
   */
  lemma ReadAsWrittenMisses(mem: Memory, node: FsNode, address: int, offset: u32, size: u32)
    requires 2 * U32_LIMIT <= address < U64_LIMIT && node.impl == Wrap32(address)
    requires offset < node.length == |node.data| && Load(mem, address, |node.data|) == node.data && node.data[offset] != 0
    requires forall a :: mem(a) != 0 ==> address <= a < address + |node.data|
    requires 0 < size
    ensures forall k :: 0 <= k < |ReadAsWritten(mem, node, offset, size)| ==> ReadAsWritten(mem, node, offset, size)[k] == 0
    ensures ReadAsWritten(mem, node, offset, size) != node.data[offset..offset + ReadCount(node.length, offset, size)]
  {
    var r := ReadAsWritten(mem, node, offset, size);
    forall k | 0 <= k < |r|
      ensures r[k] == 0
    {
      ReadAsWrittenBelow(mem, node, offset, size, k);
    }
    assert r[0] == 0;
    assert node.data[offset] != 0;
  }

  // ---------------------------------------------------------------------
  // ramdisk_readdir and ramdisk_finddir

  /** ramdisk_readdir(node, index): NULL at or past ramdisk_count, else that entry. */
  function ReadDir(d: Disk, index: u32): (r: Option<Dirent>)
    requires Wf(d)
    ensures r.None? <==> index >= d.count
    ensures r.Some? ==> r.value == d.dirents[index]
  {
    if index >= d.count then None else Some(d.dirents[index])
  }

  /** The first of the first `count` nodes whose name is name; None when there is none. */
  function FindFrom(nodes: seq<FsNode>, count: nat, name: seq<char>, from: nat): (r: Option<nat>)
    requires count <= |nodes|
    decreases count - from
    ensures r.Some? ==> from <= r.value < count && nodes[r.value].name == name &&
                        forall i :: from <= i < r.value ==> nodes[i].name != name
    ensures r.None? <==> forall i :: from <= i < count ==> nodes[i].name != name
  {
    if from >= count then None
    else if nodes[from].name == name then Some(from)
    else FindFrom(nodes, count, name, from + 1)
  }

  /** ramdisk_finddir(node, name): the first registered file named exactly name. */
  function FindDir(d: Disk, name: seq<char>): (r: Option<nat>)
    requires Wf(d)
  {
    FindFrom(d.nodes, d.count, name, 0)
  }

  // ---------------------------------------------------------------------
  // ramdisk_add_file and ramdisk_init

  /** The name as the copy loops store it: at most MAX_FILENAME - 1 characters. */
  function StoredName(name: seq<char>): (r: seq<char>)
    ensures |r| < MAX_FILENAME && |r| <= |name| && r == name[..|r|] && (|name| < MAX_FILENAME ==> r == name)
  {
    if |name| < MAX_FILENAME then name else name[..MAX_FILENAME - 1]
  }

  /**
   * ramdisk_add_file(name, contents), with the contents at address:
   * nothing at 64 files; otherwise node and entry at index count, impl
   * keeping the address's low 32 bits.
   */
  function AddFile(d: Disk, name: seq<char>, contents: seq<u8>, address: u64): (r: Disk)
    requires Wf(d) && |contents| < U32_LIMIT
    ensures Wf(r)
  {
    if d.count >= MAX_RAMDISK_FILES then d
    else
      var node := FsNode(StoredName(name), FS_FILE, |contents|, Wrap32(address), contents);
      Disk(d.nodes[d.count := node], d.dirents[d.count := Dirent(StoredName(name), d.count)], d.count + 1)
  }

  const WELCOME_TXT: seq<char> := "Welcome to ParadoxOS!\n" + "This is the future of AI operating systems."
  const ADMIN_CFG: seq<char> := "USER=admin\nPASS=paradox"
  const README_MD: seq<char> := "# Paradox Intelligence\nNeural OS initialized."

  /** The root returned by ramdisk_init: a directory (its readdir and finddir are the two functions above). */
  const ROOT: FsNode := FsNode([], FS_DIRECTORY, 0, 0, [])

  /** The addresses of the three string literals ramdisk_init passes, which the linker chooses. */
  datatype Literals = Literals(welcome: u64, admin: u64, readme: u64)

  /** ramdisk_init: the three files in order. */
  function Init(d: Disk, at: Literals): (r: (Disk, FsNode))
    requires Wf(d)
    ensures Wf(r.0)
  {
    var d1 := AddFile(d, "welcome.txt", Ascii(WELCOME_TXT), at.welcome);
    var d2 := AddFile(d1, "admin.cfg", Ascii(ADMIN_CFG), at.admin);
    (AddFile(d2, "readme.md", Ascii(README_MD), at.readme), ROOT)
  }

  // ---------------------------------------------------------------------
  // Properties

  /** A file added with a short name that was not there yet is found under it, at the index it was given; the other names find what they found. */
  lemma AddThenFind(d: Disk, name: seq<char>, contents: seq<u8>, address: u64, other: seq<char>)
    requires Wf(d) && |contents| < U32_LIMIT && d.count < MAX_RAMDISK_FILES && |name| < MAX_FILENAME
    requires FindDir(d, name).None?
    ensures FindDir(AddFile(d, name, contents, address), name) == Some(d.count)
    ensures other != name ==> FindDir(AddFile(d, name, contents, address), other) == FindDir(d, other)
  {
    var d' := AddFile(d, name, contents, address);
    assert forall i :: 0 <= i < d.count ==> d'.nodes[i] == d.nodes[i];
    FindAfterAdd(d.nodes, d'.nodes, d.count, name, 0);
    FindAfterAdd(d.nodes, d'.nodes, d.count, other, 0);
  }

  /** The search over one more node agrees with the search over the old ones when they find something, and otherwise tries the new node. */
  lemma {:induction false} FindAfterAdd(nodes: seq<FsNode>, nodes': seq<FsNode>, count: nat, name: seq<char>, from: nat)
    requires count < |nodes| && count < |nodes'| && from <= count
    requires forall i :: 0 <= i < count ==> nodes'[i] == nodes[i]
    ensures FindFrom(nodes', count + 1, name, from) ==
      if FindFrom(nodes, count, name, from).Some? then FindFrom(nodes, count, name, from)
      else if nodes'[count].name == name then Some(count) else None
    decreases count - from
  {
    if from < count {
      FindAfterAdd(nodes, nodes', count, name, from + 1);
    }
  }

  /** ramdisk_add_file: at 64 files nothing changes; otherwise the new node and entry are at the old count, listed by readdir, and nothing else moves. */
  lemma AddFileOutcome(d: Disk, name: seq<char>, contents: seq<u8>, address: u64)
    requires Wf(d) && |contents| < U32_LIMIT
    ensures d.count >= MAX_RAMDISK_FILES ==> AddFile(d, name, contents, address) == d
    ensures d.count < MAX_RAMDISK_FILES ==>
      var d' := AddFile(d, name, contents, address);
      d'.count == d.count + 1 &&
      d'.nodes[d.count] == FsNode(StoredName(name), FS_FILE, |contents|, address % U32_LIMIT, contents) &&
      ReadDir(d', d.count) == Some(Dirent(StoredName(name), d.count)) &&
      (forall i :: 0 <= i < MAX_RAMDISK_FILES && i != d.count ==>
         d'.nodes[i] == d.nodes[i] && d'.dirents[i] == d.dirents[i])
  {
  }

  /** The higher-half region the kernel's code and string literals are linked at. */
  const HIGHER_HALF_CODE: int := 0xFFFF_FFFF_8000_0000

  /**
   * welcome.txt, its text linked in the higher half: reading its first
   * seven bytes as written gives zeros, where the intended read gives
   * "Welcome".
   */
  lemma WelcomeMisread(mem: Memory, at: Literals)
    requires HIGHER_HALF_CODE <= at.welcome && Load(mem, at.welcome, |WELCOME_TXT|) == Ascii(WELCOME_TXT)
    requires forall a :: mem(a) != 0 ==> at.welcome <= a < at.welcome + |WELCOME_TXT|
    ensures var node := Init(Empty(), at).0.nodes[0];
      node.data[..ReadCount(node.length, 0, 7)] == Ascii("Welcome") &&
      ReadAsWritten(mem, node, 0, 7) != Ascii("Welcome")
  {
    var node := Init(Empty(), at).0.nodes[0];
    assert node == FsNode("welcome.txt", FS_FILE, |WELCOME_TXT|, Wrap32(at.welcome), Ascii(WELCOME_TXT));
    assert node.data[0] == 'W' as int;
    assert node.data[..7] == Ascii(WELCOME_TXT[..7]);
    ReadAsWrittenMisses(mem, node, at.welcome, 0, 7);
  }

  /** From the zeroed statics, ramdisk_init registers welcome.txt, admin.cfg and readme.md as entries 0, 1 and 2 and returns a directory. */
  lemma InitLayout(at: Literals)
    ensures var (d, root) := Init(Empty(), at);
      d.count == 3 && root.flags == FS_DIRECTORY &&
      ReadDir(d, 0) == Some(Dirent("welcome.txt", 0)) &&
      ReadDir(d, 1) == Some(Dirent("admin.cfg", 1)) &&
      ReadDir(d, 2) == Some(Dirent("readme.md", 2)) &&
      ReadDir(d, 3).None? &&
      d.nodes[1].data == Ascii(ADMIN_CFG) && d.nodes[1].length == |ADMIN_CFG| &&
      d.nodes[1].impl == at.admin % U32_LIMIT
  {
  }

  /** Reading a file in pieces: the bytes the read copies are exactly the file's bytes from the offset, never past its length. */
  lemma ReadWithinFile(length: u32, offset: u32, size: u32)
    ensures ReadCount(length, offset, size) <= size
    ensures offset <= length ==> offset + ReadCount(length, offset, size) <= length
    ensures offset <= length && size > 0 && offset < length ==> ReadCount(length, offset, size) > 0
  {
  }
}
