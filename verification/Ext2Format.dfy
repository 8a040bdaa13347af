/** What ext2 and ext4 write: inodes, extent trees and files as laid out on a
    disk, and that kernel/src/fs/ext2.rs reads them back. */
module Ext2Format {
  import opened Arith
  import opened Ext2BlockMap
  import opened Ext2Content
  import opened Ext2Extents
  import opened Layout
  import opened Wire

  // ---- extent trees ----

  /** A tree of extents: leaves, or index entries with the first logical block
      below them and the block that holds the node; and the numbers in the
      header of each node. */
  datatype Node =
    | Leaf(room: u16, generation: u32, extents: seq<Extent>)
    | Index(room: u16, generation: u32, levels: u16, children: seq<Child>)

  datatype Child = Child(logical: u32, block: nat, below: Node)

  /** A length of 32768 is written; an unwritten extent is one shorter at most. */
  predicate Writable(e: Extent) {
    Bounded(e) && (e.unwritten ==> e.len < 0x8000)
  }

  /** Logical block, length with the unwritten mark, and a start of 48 bits in
      two parts, the upper one first. */
  function LeafBytes(e: Extent): (b: seq<byte>)
    requires Writable(e)
    ensures |b| == ENTRY_LEN
  {
    Put32(e.logical) + Put16(if e.unwritten then e.len + 0x8000 else e.len)
    + Put16(e.physical / 0x1_0000_0000) + Put32(e.physical % 0x1_0000_0000)
  }

  /** Logical block, the child's block with the lower part first, padding. */
  function IndexBytes(logical: u32, block: nat): (b: seq<byte>)
    requires block < 0x1_0000_0000_0000
    ensures |b| == ENTRY_LEN
  {
    Put32(logical) + Put32(block % 0x1_0000_0000) + Put16(block / 0x1_0000_0000) + Put16(0)
  }

  /** Magic, entries in use, room, levels below and a generation number. */
  function HeaderBytes(entries: u16, room: u16, levels: u16, generation: u32): (b: seq<byte>)
    ensures |b| == HEADER_LEN
  {
    Put16(0xF30A) + Put16(entries) + Put16(room) + Put16(levels) + Put32(generation)
  }

  function EntryOf(node: Node, i: nat): seq<byte>
    requires i < Size(node) && EntryFits(node, i)
  {
    match node
    case Leaf(_, _, extents) => LeafBytes(extents[i])
    case Index(_, _, _, children) => IndexBytes(children[i].logical, children[i].block)
  }

  predicate EntryFits(node: Node, i: nat)
    requires i < Size(node)
  {
    match node
    case Leaf(_, _, extents) => Writable(extents[i])
    case Index(_, _, _, children) => children[i].block < 0x1_0000_0000_0000
  }

  function Size(node: Node): nat {
    match node
    case Leaf(_, _, extents) => |extents|
    case Index(_, _, _, children) => |children|
  }

  /** Levels of index nodes from this node down. */
  function Height(node: Node): nat
    decreases node, Size(node) + 1
  {
    match node
    case Leaf(_, _, _) => 0
    case Index(_, _, _, children) => 1 + Highest(node, |children|)
  }

  function Highest(node: Node, n: nat): nat
    requires node.Index? && n <= |node.children|
    decreases node, n
  {
    if n == 0 then 0 else Max(Highest(node, n - 1), Height(node.children[n - 1].below))
  }

  /** The extents of a tree in order. */
  function AllExtents(node: Node): seq<Extent>
    decreases node, Size(node) + 1
  {
    FirstExtents(node, Size(node))
  }

  /** Those below the first n entries of a node. */
  function FirstExtents(node: Node, n: nat): seq<Extent>
    requires n <= Size(node)
    decreases node, n
  {
    match node
    case Leaf(_, _, extents) => extents[..n]
    case Index(_, _, _, children) =>
      if n == 0 then [] else FirstExtents(node, n - 1) + AllExtents(children[n - 1].below)
  }

  function Levels(node: Node): u16 {
    match node
    case Leaf(_, _, _) => 0
    case Index(_, _, levels, _) => levels
  }

  /** The bytes begin with this node: a header and the entries in order. */
  predicate NodeAt(bytes: seq<byte>, node: Node) {
    && Size(node) <= node.room && HEADER_LEN + Size(node) * ENTRY_LEN <= |bytes|
    && bytes[..HEADER_LEN] == HeaderBytes(Size(node), node.room, Levels(node), node.generation)
    && forall i :: 0 <= i < Size(node) ==>
         EntryFits(node, i) && bytes[HEADER_LEN + i * ENTRY_LEN..HEADER_LEN + i * ENTRY_LEN + ENTRY_LEN] == EntryOf(node, i)
  }

  /** And the nodes below it are stored in the blocks it names. */
  ghost predicate Stored(image: seq<byte>, bs: nat, bytes: seq<byte>, node: Node)
    decreases node
  {
    && NodeAt(bytes, node)
    && (node.Index? ==> node.levels > 0 && forall i :: 0 <= i < |node.children| ==>
         HasBlock(image, bs, node.children[i].block) &&
         Stored(image, bs, BlockBytes(image, bs, node.children[i].block), node.children[i].below))
  }

  lemma HeaderRead(bytes: seq<byte>, entries: u16, room: u16, levels: u16, generation: u32)
    requires |bytes| >= HEADER_LEN && bytes[..HEADER_LEN] == HeaderBytes(entries, room, levels, generation)
    ensures U16At(bytes, 0) == EXTENT_MAGIC && U16At(bytes, 2) == entries && U16At(bytes, 4) == room && U16At(bytes, 6) == levels
  {
    var h := HeaderBytes(entries, room, levels, generation);
    assert h[0..2] == Put16(0xF30A) && h[2..4] == Put16(entries) && h[4..6] == Put16(room) && h[6..8] == Put16(levels);
    Inner16(bytes, 0, h, 0, 0xF30A);
    Inner16(bytes, 0, h, 2, entries);
    Inner16(bytes, 0, h, 4, room);
    Inner16(bytes, 0, h, 6, levels);
  }

  /** A field of a part of the bytes. */
  lemma Inner16(bytes: seq<byte>, off: nat, part: seq<byte>, at: nat, v: u16)
    requires off + |part| <= |bytes| && bytes[off..off + |part|] == part && at + 2 <= |part| && part[at..at + 2] == Put16(v)
    ensures U16At(bytes, off + at) == v
  {
    SliceOfSlice(bytes, off, off + |part|, at, at + 2);
    Field16(bytes, off + at, v);
  }

  lemma Inner32(bytes: seq<byte>, off: nat, part: seq<byte>, at: nat, v: u32)
    requires off + |part| <= |bytes| && bytes[off..off + |part|] == part && at + 4 <= |part| && part[at..at + 4] == Put32(v)
    ensures U32At(bytes, off + at) == v
  {
    SliceOfSlice(bytes, off, off + |part|, at, at + 4);
    Field32(bytes, off + at, v);
  }

  lemma LeafRead(node: seq<byte>, i: nat, e: Extent)
    requires var off := HEADER_LEN + i * ENTRY_LEN; Writable(e) && off + ENTRY_LEN <= |node| && node[off..off + ENTRY_LEN] == LeafBytes(e)
    ensures LeafEntry(node, i) == e
  {
    var off, b := HEADER_LEN + i * ENTRY_LEN, LeafBytes(e);
    var raw: u16 := if e.unwritten then e.len + 0x8000 else e.len;
    assert b[0..4] == Put32(e.logical) && b[4..6] == Put16(raw);
    assert b[6..8] == Put16(e.physical / 0x1_0000_0000) && b[8..12] == Put32(e.physical % 0x1_0000_0000);
    Inner32(node, off, b, 0, e.logical);
    Inner16(node, off, b, 4, raw);
    Inner16(node, off, b, 6, e.physical / 0x1_0000_0000);
    Inner32(node, off, b, 8, e.physical % 0x1_0000_0000);
  }

  lemma IndexRead(node: seq<byte>, i: nat, logical: u32, block: nat)
    requires block < 0x1_0000_0000_0000
    requires var off := HEADER_LEN + i * ENTRY_LEN; off + ENTRY_LEN <= |node| && node[off..off + ENTRY_LEN] == IndexBytes(logical, block)
    ensures ChildBlock(node, i) == block
  {
    var off, b := HEADER_LEN + i * ENTRY_LEN, IndexBytes(logical, block);
    assert b[4..8] == Put32(block % 0x1_0000_0000) && b[8..10] == Put16(block / 0x1_0000_0000);
    Inner32(node, off, b, 4, block % 0x1_0000_0000);
    Inner16(node, off, b, 8, block / 0x1_0000_0000);
  }

  /** Every stored tree of at most MAX_DEPTH index levels is read back whole
      and in order. */
  lemma {:induction false} TreeRead(image: seq<byte>, bs: nat, bytes: seq<byte>, node: Node, depth: nat)
    requires Stored(image, bs, bytes, node) && depth + Height(node) <= MAX_DEPTH
    ensures Leaves(image, bs, bytes, depth) == Some(AllExtents(node))
    decreases node, 1, 0
  {
    HeaderRead(bytes, Size(node), node.room, Levels(node), node.generation);
    EntriesRead(image, bs, bytes, node, depth, Size(node));
  }

  lemma {:induction false} EntriesRead(image: seq<byte>, bs: nat, bytes: seq<byte>, node: Node, depth: nat, n: nat)
    requires Stored(image, bs, bytes, node) && depth + Height(node) <= MAX_DEPTH && n <= Size(node)
    requires U16At(bytes, 6) == 0 <==> node.Leaf?
    ensures LeavesUpTo(image, bs, bytes, depth, n) == Some(FirstExtents(node, n))
    decreases node, 0, n
  {
    if n > 0 {
      var i := n - 1;
      EntriesRead(image, bs, bytes, node, depth, i);
      if node.Leaf? {
        OneLeaf(image, bs, bytes, node, depth, i);
      } else {
        ChildStored(image, bs, bytes, node, depth, i);
        TreeRead(image, bs, BlockBytes(image, bs, node.children[i].block), node.children[i].below, depth + 1);
        OneIndex(image, bs, bytes, node, depth, i);
      }
      AddEntry(image, bs, bytes, depth, i, FirstExtents(node, i), FirstExtents(node, n));
    }
  }

  lemma ChildStored(image: seq<byte>, bs: nat, bytes: seq<byte>, node: Node, depth: nat, i: nat)
    requires Stored(image, bs, bytes, node) && node.Index? && i < |node.children| && depth + Height(node) <= MAX_DEPTH
    ensures var child := node.children[i];
      HasBlock(image, bs, child.block) && Stored(image, bs, BlockBytes(image, bs, child.block), child.below)
      && depth + 1 + Height(child.below) <= MAX_DEPTH
  {
    HighestAt(node, |node.children|, i);
  }

  lemma AddEntry(image: seq<byte>, bs: nat, bytes: seq<byte>, depth: nat, i: nat, before: seq<Extent>, all: seq<Extent>)
    requires depth <= MAX_DEPTH && LeavesUpTo(image, bs, bytes, depth, i) == Some(before)
    requires var more := EntryLeaves(image, bs, bytes, depth, i); more.Some? && all == before + more.value
    ensures LeavesUpTo(image, bs, bytes, depth, i + 1) == Some(all)
  {
  }

  lemma OneLeaf(image: seq<byte>, bs: nat, bytes: seq<byte>, node: Node, depth: nat, i: nat)
    requires NodeAt(bytes, node) && node.Leaf? && i < |node.extents| && depth <= MAX_DEPTH && U16At(bytes, 6) == 0
    ensures EntryLeaves(image, bs, bytes, depth, i) == Some([node.extents[i]])
    ensures FirstExtents(node, i + 1) == FirstExtents(node, i) + [node.extents[i]]
  {
    assert EntryFits(node, i);
    LeafRead(bytes, i, node.extents[i]);
    assert node.extents[..i + 1] == node.extents[..i] + [node.extents[i]];
  }

  lemma OneIndex(image: seq<byte>, bs: nat, bytes: seq<byte>, node: Node, depth: nat, i: nat)
    requires NodeAt(bytes, node) && node.Index? && i < |node.children| && depth <= MAX_DEPTH && U16At(bytes, 6) != 0
    requires HasBlock(image, bs, node.children[i].block)
    requires Leaves(image, bs, BlockBytes(image, bs, node.children[i].block), depth + 1) == Some(AllExtents(node.children[i].below))
    ensures EntryLeaves(image, bs, bytes, depth, i) == Some(AllExtents(node.children[i].below))
    ensures FirstExtents(node, i + 1) == FirstExtents(node, i) + AllExtents(node.children[i].below)
  {
    assert EntryFits(node, i);
    IndexRead(bytes, i, node.children[i].logical, node.children[i].block);
  }

  lemma {:induction false} HighestAt(node: Node, n: nat, i: nat)
    requires node.Index? && i < n <= |node.children|
    ensures Height(node.children[i].below) <= Highest(node, n)
  {
    if i < n - 1 { HighestAt(node, n - 1, i); }
  }

  // ---- inodes ----

  /** The fields the driver looks at and, between them, those it does not. */
  datatype Inode = Inode(mode: u16, uid: u16, size: u64, times: seq<byte>, gid: u16, links: u16, sectors: u32, flags: u32,
                         osd1: u32, map_: seq<byte>, generation: u32, acl: u32, tail: seq<byte>) {
    predicate Sized() {
      |times| == 16 && |map_| == 60 && |tail| >= 16
    }

    function Head(): (h: seq<byte>)
      requires Sized()
      ensures |h| == 40
    {
      Top() + (times + Put16(gid) + Put16(links)) + Low()
    }

    function Top(): (t: seq<byte>)
      ensures |t| == 8
    {
      Put16(mode) + Put16(uid) + Put32(size % 0x1_0000_0000)
    }

    function Low(): (t: seq<byte>)
      ensures |t| == 12
    {
      Put32(sectors) + Put32(flags) + Put32(osd1)
    }

    function Foot(): seq<byte> {
      Put32(generation) + Put32(acl) + Put32(size / 0x1_0000_0000) + tail
    }

    function Bytes(): seq<byte>
      requires Sized()
    {
      Head() + map_ + Foot()
    }
  }

  lemma InodeRead(n: Inode)
    requires n.Sized()
    ensures var b := n.Bytes();
      && |b| >= 128 && InodeSize(b) == n.size && InodeFlags(b) == n.flags && U16At(b, 0) == n.mode && U32At(b, 28) == n.sectors
      && RootNode(b) == n.map_ && (FastSymlink(b) <==> n.mode / 0x1000 == 0xA && n.size < 60 && n.sectors == 0)
  {
    HeadRead(n);
    FootRead(n);
  }

  lemma HeadRead(n: Inode)
    requires n.Sized()
    ensures var b := n.Bytes();
      && |b| >= 128 && U16At(b, 0) == n.mode && U32At(b, 4) == n.size % 0x1_0000_0000 && U32At(b, 28) == n.sectors && U32At(b, 32) == n.flags
  {
    var b, h, t, l := n.Bytes(), n.Head(), n.Top(), n.Low();
    assert b[0..40] == h;
    assert h[0..8] == t && h[28..40] == l;
    SliceOfSlice(b, 0, 40, 0, 8);
    SliceOfSlice(b, 0, 40, 28, 40);
    assert t[0..2] == Put16(n.mode) && t[4..8] == Put32(n.size % 0x1_0000_0000);
    assert l[0..4] == Put32(n.sectors) && l[4..8] == Put32(n.flags);
    Inner16(b, 0, t, 0, n.mode);
    Inner32(b, 0, t, 4, n.size % 0x1_0000_0000);
    Inner32(b, 28, l, 0, n.sectors);
    Inner32(b, 28, l, 4, n.flags);
  }

  lemma FootRead(n: Inode)
    requires n.Sized()
    ensures var b := n.Bytes(); |b| >= 128 && b[40..100] == n.map_ && U32At(b, 108) == n.size / 0x1_0000_0000
  {
    var b, f := n.Bytes(), n.Foot();
    assert b[40..100] == n.map_ && b[100..100 + |f|] == f;
    assert f[8..12] == Put32(n.size / 0x1_0000_0000);
    Inner32(b, 100, f, 8, n.size / 0x1_0000_0000);
  }

  /** An inode that holds the root of a stored tree maps its blocks by the
      extents of the tree. */
  lemma ExtentInode(image: seq<byte>, bs: nat, n: Inode, node: Node, l: nat)
    requires n.Sized() && bs > 0 && Flag(n.flags, 0x8_0000) && Stored(image, bs, n.map_, node) && Height(node) <= MAX_DEPTH
    ensures Tree(image, bs, n.Bytes()) == Some(AllExtents(node))
    ensures LogicalMap(image, bs, n.Bytes(), l) == ExtentMap(AllExtents(node), l)
  {
    InodeRead(n);
    TreeRead(image, bs, n.map_, node, 0);
  }

  /** A file whose blocks follow one another on the disk is that stretch of
      the disk. */
  lemma ConsecutiveFile(image: seq<byte>, bs: nat, inode: seq<byte>, data: seq<byte>, first: nat, start: nat)
    requires bs > 0 && |inode| >= 128 && first > 0 && start == first * bs && start + |data| <= |image|
    requires IsContent(image, bs, inode, data)
    requires forall l :: 0 <= l < BlocksFor(|data|, bs) ==> LogicalMap(image, bs, inode, l) == first + l
    ensures data == image[start..start + |data|]
  {
    forall k | 0 <= k < |data|
      ensures data[k] == image[start + k]
    {
      BlockWithinFile(k, |data|, bs);
      var q, r := Place(k, bs);
      ByteOfRun(first, q, r, bs, start);
      assert data[k] == FileByte(image, bs, Mapping(image, bs, inode), k);
    }
  }

  lemma Place(k: nat, bs: nat) returns (q: nat, r: nat)
    requires bs > 0
    ensures q == k / bs && r == k % bs && k == q * bs + r
  {
    q, r := k / bs, k % bs;
  }

  lemma ByteOfRun(first: nat, q: nat, r: nat, bs: nat, start: nat)
    requires start == first * bs
    ensures (first + q) * bs + r == start + (q * bs + r)
  {
  }

  lemma OneExtentMap(image: seq<byte>, bs: nat, n: Inode, node: Node, e: Extent, l: nat)
    requires n.Sized() && bs > 0 && Flag(n.flags, 0x8_0000) && NodeAt(n.map_, node)
    requires node.Leaf? && node.extents == [e] && !e.unwritten && e.logical == 0 && l < e.len
    ensures LogicalMap(image, bs, n.Bytes(), l) == e.physical + l
  {
    assert AllExtents(node) == [e];
    ExtentInode(image, bs, n, node, l);
    UniqueCover([e], l, 0);
  }

  /** The commonest file: one written extent from its first block on, noted in
      the inode. */
  lemma OneExtentFile(image: seq<byte>, bs: nat, n: Inode, room: u16, generation: u32, e: Extent, data: seq<byte>, start: nat)
    requires n.Sized() && bs > 0 && Flag(n.flags, 0x8_0000) && Writable(e) && !e.unwritten && e.logical == 0 && e.physical > 0
    requires NodeAt(n.map_, Leaf(room, generation, [e])) && BlocksFor(n.size, bs) <= e.len
    requires start == e.physical * bs && start + n.size <= |image|
    requires IsContent(image, bs, n.Bytes(), data)
    ensures data == image[start..start + n.size]
  {
    InodeRead(n);
    forall l | 0 <= l < BlocksFor(|data|, bs)
      ensures LogicalMap(image, bs, n.Bytes(), l) == e.physical + l
    {
      OneExtentMap(image, bs, n, Leaf(room, generation, [e]), e, l);
    }
    ConsecutiveFile(image, bs, n.Bytes(), data, e.physical, start);
  }

  // ---- block pointers ----

  /** What a pointer leads to: nothing, a block, or a block of pointers. */
  datatype Table = Hole | Block(number: u32) | Pointers(number: u32, kids: seq<Table>)

  function RootOf(t: Table): u32 {
    if t.Hole? then 0 else t.number
  }

  function Roots(kids: seq<Table>): (ws: seq<u32>)
    ensures |ws| == |kids| && forall k :: 0 <= k < |kids| ==> ws[k] == RootOf(kids[k])
  {
    seq(|kids|, k requires 0 <= k < |kids| => RootOf(kids[k]))
  }

  ghost predicate TableStored(image: seq<byte>, bs: nat, t: Table, level: nat)
    decreases level
  {
    match t
    case Hole => true
    case Block(number) => level == 0 && number > 0
    case Pointers(number, kids) =>
      && level > 0 && number > 0 && 4 * |kids| == bs && HasBlock(image, bs, number)
      && BlockBytes(image, bs, number) == Joined(Words(Roots(kids)))
      && forall k :: 0 <= k < |kids| ==> TableStored(image, bs, kids[k], level - 1)
  }

  /** All blocks below a pointer, one after the other. */
  function AllBlocks(t: Table, p: nat, level: nat): (bs: seq<u32>)
    requires p > 0
    ensures |bs| == Span(p, level)
    decreases level, 1
  {
    match t
    case Hole => seq(Span(p, level), _ => 0)
    case Block(number) => seq(Span(p, level), _ => number)
    case Pointers(_, kids) =>
      if level == 0 || |kids| != p then seq(Span(p, level), _ => 0)
      else
        var parts := Parts(kids, p, level - 1);
        JoinedLength(parts, Span(p, level - 1));
        BlocksTimes(p, Span(p, level - 1));
        Joined(parts)
  }

  function Parts(kids: seq<Table>, p: nat, level: nat): (parts: seq<seq<u32>>)
    requires p > 0
    ensures |parts| == |kids| && forall k :: 0 <= k < |kids| ==> parts[k] == AllBlocks(kids[k], p, level)
    decreases level, 2
  {
    seq(|kids|, k requires 0 <= k < |kids| => AllBlocks(kids[k], p, level))
  }

  /** Word k of a stored block of pointers. */
  lemma PointerRead(image: seq<byte>, bs: nat, block: nat, ws: seq<u32>, k: nat)
    requires HasBlock(image, bs, block) && BlockBytes(image, bs, block) == Joined(Words(ws)) && k < |ws| && 4 * |ws| == bs
    ensures BlockWord(image, bs, block, k) == ws[k]
  {
    PartAt(Words(ws), 4, k);
    BlocksTimes(k, 4);
    Field32(Joined(Words(ws)), 4 * k, ws[k]);
    WordOfBlock(image, bs, block, k);
  }

  /** Following pointers leads to the blocks in order. */
  lemma {:induction false} PointersRead(image: seq<byte>, bs: nat, t: Table, level: nat, i: nat)
    requires bs > 0 && TableStored(image, bs, t, level) && i < Span(PerBlock(bs), level)
    ensures Resolve(image, bs, level, RootOf(t), i) == AllBlocks(t, PerBlock(bs), level)[i]
    decreases level
  {
    if t.Pointers? {
      var p := PerBlock(bs);
      var span := Span(p, level - 1);
      var k, j := WhichPart(i, p, span);
      PointersRead(image, bs, t.kids[k], level - 1, j);
      OneTable(image, bs, t, level, k, j, i);
    } else {
      OneNumber(image, bs, t, level, i);
    }
  }

  lemma {:induction false} OneNumber(image: seq<byte>, bs: nat, t: Table, level: nat, i: nat)
    requires bs > 0 && !t.Pointers? && TableStored(image, bs, t, level) && i < Span(PerBlock(bs), level) && PerBlock(bs) > 0
    ensures Resolve(image, bs, level, RootOf(t), i) == AllBlocks(t, PerBlock(bs), level)[i]
  {
  }

  lemma BlockOfPart(t: Table, p: nat, level: nat, k: nat, j: nat, i: nat)
    requires t.Pointers? && p > 0 && level > 0 && |t.kids| == p && k < p && j < Span(p, level - 1) && i == k * Span(p, level - 1) + j
    requires i < Span(p, level)
    ensures AllBlocks(t, p, level)[i] == AllBlocks(t.kids[k], p, level - 1)[j]
  {
    var parts, span := Parts(t.kids, p, level - 1), Span(p, level - 1);
    PartAt(parts, span, k);
    BlocksTimes(k, span);
    assert Joined(parts)[i] == Joined(parts)[Blocks(k, span)..Blocks(k, span) + span][j];
  }

  lemma OneTable(image: seq<byte>, bs: nat, t: Table, level: nat, k: nat, j: nat, i: nat)
    requires bs > 0 && TableStored(image, bs, t, level) && t.Pointers? && k < |t.kids|
    requires j < Span(PerBlock(bs), level - 1) && i == k * Span(PerBlock(bs), level - 1) + j && i < Span(PerBlock(bs), level)
    requires Resolve(image, bs, level - 1, RootOf(t.kids[k]), j) == AllBlocks(t.kids[k], PerBlock(bs), level - 1)[j]
    ensures Resolve(image, bs, level, t.number, i) == AllBlocks(t, PerBlock(bs), level)[i]
  {
    BlockOfPart(t, PerBlock(bs), level, k, j, i);
    KidRead(image, bs, t, level, k);
    ResolveStep(image, bs, level, t.number, k, j);
  }

  lemma KidRead(image: seq<byte>, bs: nat, t: Table, level: nat, k: nat)
    requires TableStored(image, bs, t, level) && t.Pointers? && k < |t.kids|
    ensures BlockWord(image, bs, t.number, k) == RootOf(t.kids[k])
  {
    PointerRead(image, bs, t.number, Roots(t.kids), k);
  }

  lemma WhichPart(i: nat, p: nat, span: nat) returns (k: nat, j: nat)
    requires i < p * span
    ensures k < p && j < span && i == k * span + j
  {
    if span == 0 { assert false; }
    k, j := i / span, i % span;
    DivFloor(i, span);
    if i / span >= p { MulMono(p, i / span, span); assert false; }
  }

  /** The pointers of an inode. */
  datatype PointerRoot = PointerRoot(direct: seq<u32>, single: Table, double: Table, triple: Table) {
    function Slots(): (ws: seq<u32>)
      ensures |ws| == |direct| + 3
    {
      direct + [RootOf(single), RootOf(double), RootOf(triple)]
    }

    /** Every block of the file, one after the other. */
    function AllOf(p: nat): seq<u32>
      requires p > 0
    {
      direct + AllBlocks(single, p, 1) + AllBlocks(double, p, 2) + AllBlocks(triple, p, 3)
    }

    ghost predicate AllStored(image: seq<byte>, bs: nat) {
      |direct| == 12 && TableStored(image, bs, single, 1) && TableStored(image, bs, double, 2) && TableStored(image, bs, triple, 3)
    }
  }

  lemma SlotRead(n: Inode, ws: seq<u32>, slot: nat)
    requires n.Sized() && |ws| == 15 && n.map_ == Joined(Words(ws)) && slot < 15
    ensures Ptr(n.Bytes(), slot) == ws[slot]
  {
    InodeRead(n);
    PartAt(Words(ws), 4, slot);
    BlocksTimes(slot, 4);
    var b := n.Bytes();
    assert b[40..100] == n.map_;
    Inner32(b, 40, n.map_, 4 * slot, ws[slot]);
  }

  /** The block map of an inode that stores these pointers is all their blocks
      in order: direct, single, double and triple indirect. */
  lemma PointerInode(image: seq<byte>, bs: nat, n: Inode, root: PointerRoot, l: nat)
    requires n.Sized() && bs > 0 && n.map_ == Joined(Words(root.Slots())) && root.AllStored(image, bs)
    requires l < |root.AllOf(PerBlock(bs))|
    ensures PointerMap(image, bs, n.Bytes(), l) == root.AllOf(PerBlock(bs))[l]
  {
    Chosen(image, bs, n, root, l, AtLevel(image, bs, n.Bytes()), PointerMap(image, bs, n.Bytes(), l));
  }

  lemma Chosen(image: seq<byte>, bs: nat, n: Inode, root: PointerRoot, l: nat, f: ByPointer, b: u32)
    requires n.Sized() && bs > 0 && n.map_ == Joined(Words(root.Slots())) && root.AllStored(image, bs)
    requires f == AtLevel(image, bs, n.Bytes()) && b == PointerMap(image, bs, n.Bytes(), l) && l < |root.AllOf(PerBlock(bs))|
    ensures b == root.AllOf(PerBlock(bs))[l]
  {
    AllLevels(image, bs, n, root, f);
    ByLevel(image, bs, n.Bytes(), root, l, f);
    InTurn(f, root, PerBlock(bs), l, b);
  }

  /** What a block map that goes through the levels in turn gives for block l. */
  function InLevel(f: ByPointer, s1: nat, s2: nat, l: nat): u32 {
    if l < 12 then f(0, l) else if l < 12 + s1 then f(1, l - 12) else if l < 12 + s1 + s2 then f(2, l - 12 - s1) else f(3, l - 12 - s1 - s2)
  }

  lemma InTurn(f: ByPointer, root: PointerRoot, p: nat, l: nat, b: u32)
    requires p > 0 && Leads(f, root, p) && l < |root.AllOf(p)| && |root.direct| == 12
    requires b == InLevel(f, |AllBlocks(root.single, p, 1)|, |AllBlocks(root.double, p, 2)|, l)
    ensures b == root.AllOf(p)[l]
  {
    InOrder(root.direct, AllBlocks(root.single, p, 1), AllBlocks(root.double, p, 2), AllBlocks(root.triple, p, 3), l);
  }

  /** Block i below the pointer of a level; level 0 is that of the direct ones. */
  type ByPointer = (nat, nat) -> u32

  function AtLevel(image: seq<byte>, bs: nat, inode: seq<byte>): ByPointer
    requires bs > 0
  {
    (level: nat, i: nat) => if level == 0 then Ptr(inode, i) else Resolve(image, bs, level, Ptr(inode, 11 + level), i)
  }

  /** What every level leads to. */
  ghost predicate Leads(f: ByPointer, root: PointerRoot, p: nat)
    requires p > 0
  {
    && (forall i: nat :: i < |root.direct| ==> f(0, i) == root.direct[i])
    && (forall i: nat :: i < |AllBlocks(root.single, p, 1)| ==> f(1, i) == AllBlocks(root.single, p, 1)[i])
    && (forall i: nat :: i < |AllBlocks(root.double, p, 2)| ==> f(2, i) == AllBlocks(root.double, p, 2)[i])
    && (forall i: nat :: i < |AllBlocks(root.triple, p, 3)| ==> f(3, i) == AllBlocks(root.triple, p, 3)[i])
  }

  lemma AllLevels(image: seq<byte>, bs: nat, n: Inode, root: PointerRoot, f: ByPointer)
    requires n.Sized() && bs > 0 && n.map_ == Joined(Words(root.Slots())) && root.AllStored(image, bs) && f == AtLevel(image, bs, n.Bytes())
    ensures Leads(f, root, PerBlock(bs))
  {
    forall i: nat | i < |root.direct| ensures f(0, i) == root.direct[i] {
      SlotRead(n, root.Slots(), i);
    }
    OneLevel(image, bs, n, root.Slots(), root.single, 1, f);
    OneLevel(image, bs, n, root.Slots(), root.double, 2, f);
    OneLevel(image, bs, n, root.Slots(), root.triple, 3, f);
  }

  lemma OneLevel(image: seq<byte>, bs: nat, n: Inode, ws: seq<u32>, t: Table, level: nat, f: ByPointer)
    requires n.Sized() && bs > 0 && |ws| == 15 && n.map_ == Joined(Words(ws)) && 1 <= level <= 3 && f == AtLevel(image, bs, n.Bytes())
    requires ws[11 + level] == RootOf(t) && TableStored(image, bs, t, level)
    ensures forall i: nat :: i < |AllBlocks(t, PerBlock(bs), level)| ==> f(level, i) == AllBlocks(t, PerBlock(bs), level)[i]
  {
    forall i: nat | i < |AllBlocks(t, PerBlock(bs), level)| ensures f(level, i) == AllBlocks(t, PerBlock(bs), level)[i] {
      TableRead(image, bs, n, ws, t, level, i);
    }
  }

  lemma ByLevel(image: seq<byte>, bs: nat, inode: seq<byte>, root: PointerRoot, l: nat, f: ByPointer)
    requires bs > 0 && f == AtLevel(image, bs, inode)
    ensures PointerMap(image, bs, inode, l) ==
      InLevel(f, |AllBlocks(root.single, PerBlock(bs), 1)|, |AllBlocks(root.double, PerBlock(bs), 2)|, l)
  {
    TableLengths(root, PerBlock(bs));
  }

  lemma TableLengths(root: PointerRoot, p: nat)
    requires p > 0
    ensures |AllBlocks(root.single, p, 1)| == p && |AllBlocks(root.double, p, 2)| == p * p
  {
    Spans(p);
  }

  lemma TableRead(image: seq<byte>, bs: nat, n: Inode, ws: seq<u32>, t: Table, level: nat, i: nat)
    requires n.Sized() && bs > 0 && |ws| == 15 && n.map_ == Joined(Words(ws)) && 1 <= level <= 3
    requires ws[11 + level] == RootOf(t) && TableStored(image, bs, t, level) && i < |AllBlocks(t, PerBlock(bs), level)|
    ensures Resolve(image, bs, level, Ptr(n.Bytes(), 11 + level), i) == AllBlocks(t, PerBlock(bs), level)[i]
  {
    SlotRead(n, ws, 11 + level);
    PointersRead(image, bs, t, level, i);
  }

  lemma InOrder<T>(a: seq<T>, b: seq<T>, c: seq<T>, d: seq<T>, l: nat)
    requires l < |a + b + c + d|
    ensures (a + b + c + d)[l] ==
      if l < |a| then a[l] else if l < |a| + |b| then b[l - |a|]
      else if l < |a| + |b| + |c| then c[l - |a| - |b|] else d[l - |a| - |b| - |c|]
  {
  }

  lemma Spans(p: nat)
    ensures Span(p, 1) == p && Span(p, 2) == p * p && Span(p, 3) == p * (p * p)
  {
    assert Span(p, 1) == p * Span(p, 0) && Span(p, 2) == p * Span(p, 1) && Span(p, 3) == p * Span(p, 2);
  }
}
