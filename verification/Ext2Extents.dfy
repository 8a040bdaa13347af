/** The ext4 extent tree of kernel/src/fs/ext2.rs: a recursive walk collects
    leaf extents, which then fill a flat block map. */
module Ext2Extents {
  import opened BlockDevice
  import opened Wire
  import opened Ext2BlockMap

  const EXTENT_MAGIC: u16 := 0xF30A
  const HEADER_LEN: nat := 12
  const ENTRY_LEN: nat := 12
  const INIT_MAX_LEN: nat := 0x8000
  const MAX_DEPTH: nat := 8

  datatype Extent = Extent(logical: nat, physical: nat, len: nat, unwritten: bool) {
    predicate Covers(l: nat) {
      !unwritten && logical <= l < logical + len
    }
  }

  predicate HeaderOk(node: seq<byte>) {
    && |node| >= HEADER_LEN
    && U16At(node, 0) == EXTENT_MAGIC
    && U16At(node, 2) <= U16At(node, 4)
    && HEADER_LEN + U16At(node, 2) * ENTRY_LEN <= |node|
  }

  function LeafEntry(node: seq<byte>, i: nat): Extent {
    var off := HEADER_LEN + i * ENTRY_LEN;
    var raw := U16At(node, off + 4);
    Extent(U32At(node, off), U32At(node, off + 8) + U16At(node, off + 6) * 0x1_0000_0000,
           if raw > INIT_MAX_LEN then raw - INIT_MAX_LEN else raw, raw > INIT_MAX_LEN)
  }

  function ChildBlock(node: seq<byte>, i: nat): nat {
    var off := HEADER_LEN + i * ENTRY_LEN;
    U32At(node, off + 4) + U16At(node, off + 8) * 0x1_0000_0000
  }

  /** The leaf extents below a node in traversal order; `None` where the walk
      must give up: a bad header, a block beyond the image, or more than
      `MAX_DEPTH` index levels. */
  function Leaves(image: seq<byte>, bs: nat, node: seq<byte>, depth: nat): Option<seq<Extent>>
    decreases MAX_DEPTH + 1 - Min(depth, MAX_DEPTH + 1), 0x1_0000
  {
    if depth > MAX_DEPTH || !HeaderOk(node) then None
    else LeavesUpTo(image, bs, node, depth, U16At(node, 2))
  }

  /** The same for the first `n` entries of a node. */
  function LeavesUpTo(image: seq<byte>, bs: nat, node: seq<byte>, depth: nat, n: nat): Option<seq<Extent>>
    requires depth <= MAX_DEPTH
    decreases MAX_DEPTH + 1 - depth, n
  {
    if n == 0 then Some([])
    else
      match LeavesUpTo(image, bs, node, depth, n - 1)
      case None => None
      case Some(before) =>
        match EntryLeaves(image, bs, node, depth, n - 1)
        case None => None
        case Some(more) => Some(before + more)
  }

  function EntryLeaves(image: seq<byte>, bs: nat, node: seq<byte>, depth: nat, i: nat): Option<seq<Extent>>
    requires depth <= MAX_DEPTH
    decreases MAX_DEPTH + 1 - depth, i
  {
    if U16At(node, 6) == 0 then
      var e := LeafEntry(node, i);
      Some(if e.len == 0 then [] else [e])
    else
      var child := ChildBlock(node, i);
      if !HasBlock(image, bs, child) then None
      else Leaves(image, bs, BlockBytes(image, bs, child), depth + 1)
  }

  /** Every leaf extent is non-empty and starts below 2^48, so no physical
      block number computed from it leaves 64 bits. */
  predicate Bounded(e: Extent) {
    e.logical < 0x1_0000_0000 && e.physical < 0x1_0000_0000_0000 && 0 < e.len <= 0x8000
  }

  ghost predicate AllBounded(r: Option<seq<Extent>>) {
    r.Some? ==> forall k :: 0 <= k < |r.value| ==> Bounded(r.value[k])
  }

  lemma {:induction false} LeavesBounded(image: seq<byte>, bs: nat, node: seq<byte>, depth: nat, n: nat)
    requires depth <= MAX_DEPTH
    ensures AllBounded(LeavesUpTo(image, bs, node, depth, n))
    decreases MAX_DEPTH + 1 - depth, n
  {
    if n > 0 {
      LeavesBounded(image, bs, node, depth, n - 1);
      EntryBounded(image, bs, node, depth, n - 1);
    }
  }

  lemma {:induction false} EntryBounded(image: seq<byte>, bs: nat, node: seq<byte>, depth: nat, i: nat)
    requires depth <= MAX_DEPTH
    ensures AllBounded(EntryLeaves(image, bs, node, depth, i))
    decreases MAX_DEPTH + 1 - depth, i
  {
    var child := ChildBlock(node, i);
    if U16At(node, 6) == 0 {
      var e := LeafEntry(node, i);
      assert e.len == 0 || Bounded(e);
    } else if HasBlock(image, bs, child) && depth < MAX_DEPTH {
      var bytes := BlockBytes(image, bs, child);
      LeavesBounded(image, bs, bytes, depth + 1, U16At(bytes, 2));
    }
  }

  /** A node that points back to itself is refused at whatever depth it is met. */
  lemma {:induction false} SelfLoopRefused(image: seq<byte>, bs: nat, block: nat, depth: nat, i: nat)
    requires HasBlock(image, bs, block)
    requires var node := BlockBytes(image, bs, block);
      U16At(node, 6) != 0 && i < U16At(node, 2) && ChildBlock(node, i) == block
    ensures Leaves(image, bs, BlockBytes(image, bs, block), depth) == None
    decreases MAX_DEPTH + 1 - Min(depth, MAX_DEPTH + 1)
  {
    var node := BlockBytes(image, bs, block);
    if depth <= MAX_DEPTH {
      SelfLoopRefused(image, bs, block, depth + 1, i);
      assert EntryLeaves(image, bs, node, depth, i) == None;
      FailureSticks(image, bs, node, depth, i, U16At(node, 2));
    }
  }

  lemma {:induction false} FailureSticks(image: seq<byte>, bs: nat, node: seq<byte>, depth: nat, i: nat, n: nat)
    requires depth <= MAX_DEPTH && i < n
    requires EntryLeaves(image, bs, node, depth, i) == None
    ensures LeavesUpTo(image, bs, node, depth, n) == None
  {
    if i < n - 1 {
      FailureSticks(image, bs, node, depth, i, n - 1);
    }
  }

  /** The physical block an extent list gives logical block l: the last
      written extent that covers it decides, and none means a hole. */
  function ExtentMap(extents: seq<Extent>, l: nat): nat {
    if extents == [] then 0
    else
      var e := extents[|extents| - 1];
      if e.Covers(l) then e.physical + (l - e.logical) else ExtentMap(extents[..|extents| - 1], l)
  }

  /** When one written extent alone covers l it decides, wherever it stands. */
  lemma {:induction false} UniqueCover(extents: seq<Extent>, l: nat, k: nat)
    requires k < |extents| && extents[k].Covers(l)
    requires forall j :: 0 <= j < |extents| && j != k ==> !extents[j].Covers(l)
    ensures ExtentMap(extents, l) == extents[k].physical + (l - extents[k].logical)
  {
    if k < |extents| - 1 {
      UniqueCover(extents[..|extents| - 1], l, k);
    }
  }

  lemma {:induction false} NoCover(extents: seq<Extent>, l: nat)
    requires forall j :: 0 <= j < |extents| ==> !extents[j].Covers(l)
    ensures ExtentMap(extents, l) == 0
  {
    if extents != [] {
      NoCover(extents[..|extents| - 1], l);
    }
  }

  method WalkExtentNode(fs: Ext2Fs, node: seq<byte>, found: seq<Extent>, depth: nat) returns (r: Result<seq<Extent>>)
    requires BlockSizeAccepted(fs.blockSize)
    modifies fs.disk
    ensures r.Ok? <==> Leaves(fs.disk.image, fs.blockSize, node, depth).Some? && fs.disk.failures == old(fs.disk.failures)
    ensures fs.disk.failures >= old(fs.disk.failures)
    ensures r.Ok? ==> r.value == found + Leaves(fs.disk.image, fs.blockSize, node, depth).value
    decreases MAX_DEPTH + 1 - Min(depth, MAX_DEPTH + 1), 2
  {
    if depth > MAX_DEPTH {
      return Err(NotSupported);
    }
    if |node| < HEADER_LEN {
      return Err(IoError);
    }
    if U16At(node, 0) != EXTENT_MAGIC {
      return Err(InvalidPath);
    }
    var entries, max := U16At(node, 2), U16At(node, 4);
    if entries > max {
      return Err(InvalidPath);
    }
    if HEADER_LEN + entries * ENTRY_LEN > |node| {
      return Err(InvalidPath);
    }
    r := WalkEntries(fs, node, found, depth, entries);
  }

  /** The loop over the entries of a node whose header is in order. */
  method WalkEntries(fs: Ext2Fs, node: seq<byte>, found: seq<Extent>, depth: nat, entries: nat) returns (r: Result<seq<Extent>>)
    requires BlockSizeAccepted(fs.blockSize) && depth <= MAX_DEPTH
    modifies fs.disk
    ensures r.Ok? <==> LeavesUpTo(fs.disk.image, fs.blockSize, node, depth, entries).Some? && fs.disk.failures == old(fs.disk.failures)
    ensures fs.disk.failures >= old(fs.disk.failures)
    ensures r.Ok? ==> r.value == found + LeavesUpTo(fs.disk.image, fs.blockSize, node, depth, entries).value
    decreases MAX_DEPTH + 1 - depth, 1
  {
    var out := found;
    for i := 0 to entries
      invariant LeavesUpTo(fs.disk.image, fs.blockSize, node, depth, i).Some?
      invariant out == found + LeavesUpTo(fs.disk.image, fs.blockSize, node, depth, i).value
      invariant fs.disk.failures == old(fs.disk.failures)
    {
      var next := WalkEntry(fs, node, out, depth, i);
      if next.Err? {
        if EntryLeaves(fs.disk.image, fs.blockSize, node, depth, i) == None {
          FailureSticks(fs.disk.image, fs.blockSize, node, depth, i, entries);
        }
        return next;
      }
      out := next.value;
    }
    return Ok(out);
  }

  method WalkEntry(fs: Ext2Fs, node: seq<byte>, found: seq<Extent>, depth: nat, i: nat) returns (r: Result<seq<Extent>>)
    requires BlockSizeAccepted(fs.blockSize) && depth <= MAX_DEPTH
    modifies fs.disk
    ensures r.Ok? <==> EntryLeaves(fs.disk.image, fs.blockSize, node, depth, i).Some? && fs.disk.failures == old(fs.disk.failures)
    ensures fs.disk.failures >= old(fs.disk.failures)
    ensures r.Ok? ==> r.value == found + EntryLeaves(fs.disk.image, fs.blockSize, node, depth, i).value
    decreases MAX_DEPTH + 1 - depth, 0
  {
    if U16At(node, 6) == 0 {
      var e := LeafEntry(node, i);
      return Ok(if e.len == 0 then found else found + [e]);
    }
    var buf := fs.ReadBlock(ChildBlock(node, i));
    if buf.None? {
      return Err(IoError);
    }
    r := WalkExtentNode(fs, buf.value, found, depth + 1);
  }

  /** The extent header and its entries lie in the 60 bytes of i_block. */
  function RootNode(inode: seq<byte>): seq<byte>
    requires |inode| >= 128
  {
    inode[40..100]
  }

  /** The whole tree of an inode. */
  function Tree(image: seq<byte>, bs: nat, inode: seq<byte>): Option<seq<Extent>>
    requires |inode| >= 128
  {
    Leaves(image, bs, RootNode(inode), 0)
  }

  lemma TreeBounded(image: seq<byte>, bs: nat, inode: seq<byte>)
    requires |inode| >= 128
    ensures AllBounded(Tree(image, bs, inode))
  {
    LeavesBounded(image, bs, RootNode(inode), 0, U16At(RootNode(inode), 2));
  }

  method ExtentBlocks(fs: Ext2Fs, inode: seq<byte>, needed: nat) returns (r: Result<seq<nat>>)
    requires BlockSizeAccepted(fs.blockSize) && |inode| >= 128
    modifies fs.disk
    ensures r.Ok? <==> Tree(fs.disk.image, fs.blockSize, inode).Some? && fs.disk.failures == old(fs.disk.failures)
    ensures fs.disk.failures >= old(fs.disk.failures)
    ensures r.Ok? ==> |r.value| == needed
    ensures r.Ok? ==> forall l :: 0 <= l < needed ==> r.value[l] == ExtentMap(Tree(fs.disk.image, fs.blockSize, inode).value, l)
  {
    var walked := WalkExtentNode(fs, RootNode(inode), [], 0);
    if walked.Err? {
      return Err(walked.error);
    }
    ghost var tree := Tree(fs.disk.image, fs.blockSize, inode);
    assert walked.value == tree.value;
    TreeBounded(fs.disk.image, fs.blockSize, inode);
    var blocks := FillMap(walked.value, needed);
    return Ok(blocks);
  }

  method FillMap(extents: seq<Extent>, needed: nat) returns (blocks: seq<nat>)
    requires forall k :: 0 <= k < |extents| ==> Bounded(extents[k])
    ensures |blocks| == needed
    ensures forall l :: 0 <= l < needed ==> blocks[l] == ExtentMap(extents, l)
  {
    var out := new nat[needed](_ => 0);
    for k := 0 to |extents|
      invariant forall l :: 0 <= l < needed ==> out[l] == ExtentMap(extents[..k], l)
    {
      assert extents[..k + 1][..k] == extents[..k];
      if !extents[k].unwritten {
        FillExtent(out, extents[k]);
      }
    }
    assert extents[..|extents|] == extents;
    blocks := out[..];
  }

  /** Writes the blocks of one extent; the 64-bit sum cannot overflow. */
  method FillExtent(out: array<nat>, e: Extent)
    requires Bounded(e) && !e.unwritten
    modifies out
    ensures forall l :: 0 <= l < out.Length ==> out[l] == if e.Covers(l) then e.physical + (l - e.logical) else old(out[l])
  {
    var i := 0;
    while i < e.len && e.logical + i < out.Length
      invariant 0 <= i <= e.len
      invariant forall l :: 0 <= l < out.Length ==>
        out[l] == if e.logical <= l < e.logical + i then e.physical + (l - e.logical) else old(out[l])
    {
      var physical: u64 := e.physical + i;
      out[e.logical + i] := physical;
      i := i + 1;
    }
  }
}
