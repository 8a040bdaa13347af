/** File contents of kernel/src/fs/ext2.rs: the two block maps behind one
    interface, and the assembly of a whole file from mapped blocks. */
module Ext2Content {
  import opened Arith
  import opened Wire
  import opened Ext2BlockMap
  import opened Ext2Extents

  const INODE_EXTENTS: nat := 0x0008_0000
  const INODE_INLINE_DATA: nat := 0x1000_0000

  function InodeSize(inode: seq<byte>): nat {
    U32At(inode, 4) + U32At(inode, 108) * 0x1_0000_0000
  }

  function InodeFlags(inode: seq<byte>): u32 {
    U32At(inode, 32)
  }

  /** A short symbolic link keeps its target in i_block. */
  predicate FastSymlink(inode: seq<byte>) {
    U16At(inode, 0) / 0x1000 == 0xA && InodeSize(inode) < 60 && U32At(inode, 28) == 0
  }

  function BlocksFor(size: nat, bs: nat): nat
    requires bs > 0
  {
    (size + bs - 1) / bs
  }

  /** The block map of an inode, whichever way it is stored. */
  ghost function LogicalMap(image: seq<byte>, bs: nat, inode: seq<byte>, l: nat): nat
    requires bs > 0 && |inode| >= 128
  {
    if Flag(InodeFlags(inode), INODE_EXTENTS) then
      match Tree(image, bs, inode)
      case Some(extents) => ExtentMap(extents, l)
      case None => 0
    else PointerMap(image, bs, inode, l)
  }

  /** Byte k of a file whose logical block l is physical block map(l). */
  ghost function FileByte(image: seq<byte>, bs: nat, map_: nat -> nat, k: nat): byte
    requires bs > 0
  {
    var physical := map_(k / bs);
    var at := physical * bs + k % bs;
    if physical == 0 || at >= |image| then 0 else image[at]
  }

  ghost function Mapping(image: seq<byte>, bs: nat, inode: seq<byte>): nat -> nat
    requires bs > 0 && |inode| >= 128
  {
    l => LogicalMap(image, bs, inode, l)
  }

  ghost predicate IsContent(image: seq<byte>, bs: nat, inode: seq<byte>, data: seq<byte>)
    requires bs > 0 && |inode| >= 128
  {
    && |data| == InodeSize(inode)
    && forall k :: 0 <= k < |data| ==> data[k] == FileByte(image, bs, Mapping(image, bs, inode), k)
  }

  /** Two inodes of one size that map the same logical blocks to the same
      physical blocks hold the same bytes, however the maps are stored. */
  lemma SameMapSameContent(image: seq<byte>, bs: nat, inode: seq<byte>, inode': seq<byte>, data: seq<byte>, data': seq<byte>)
    requires bs > 0 && |inode| >= 128 && |inode'| >= 128
    requires IsContent(image, bs, inode, data) && IsContent(image, bs, inode', data')
    requires InodeSize(inode) == InodeSize(inode')
    requires forall l :: 0 <= l < BlocksFor(InodeSize(inode), bs) ==> LogicalMap(image, bs, inode, l) == LogicalMap(image, bs, inode', l)
    ensures data == data'
  {
    SameBytes(image, bs, Mapping(image, bs, inode), Mapping(image, bs, inode'), data, data');
  }

  lemma SameBytes(image: seq<byte>, bs: nat, map_: nat -> nat, map_': nat -> nat, data: seq<byte>, data': seq<byte>)
    requires bs > 0 && |data| == |data'|
    requires forall k :: 0 <= k < |data| ==> data[k] == FileByte(image, bs, map_, k)
    requires forall k :: 0 <= k < |data| ==> data'[k] == FileByte(image, bs, map_', k)
    requires forall l :: 0 <= l < BlocksFor(|data|, bs) ==> map_(l) == map_'(l)
    ensures data == data'
  {
    forall k | 0 <= k < |data|
      ensures data[k] == data'[k]
    {
      SameByte(image, bs, map_, map_', |data|, k);
    }
  }

  lemma SameByte(image: seq<byte>, bs: nat, map_: nat -> nat, map_': nat -> nat, size: nat, k: nat)
    requires bs > 0 && k < size && forall l :: 0 <= l < BlocksFor(size, bs) ==> map_(l) == map_'(l)
    ensures FileByte(image, bs, map_, k) == FileByte(image, bs, map_', k)
  {
    BlockWithinFile(k, size, bs);
  }

  lemma BlockWithinFile(k: nat, size: nat, bs: nat)
    requires bs > 0 && k < size
    ensures k / bs < BlocksFor(size, bs)
  {
    var n := BlocksFor(size, bs);
    assert n * bs >= size;
    if k / bs >= n {
      MulMono(n, k / bs, bs);
      assert false;
    }
  }

  /** No fewer blocks hold the file. */
  lemma BlocksForLeast(size: nat, bs: nat)
    requires bs > 0
    ensures var n := BlocksFor(size, bs); n * bs >= size && (n > 0 ==> n * bs < size + bs)
  {
    DivFloor(size + bs - 1, bs);
  }

  /** The inode's map can be listed: it is empty, or within the cap, not inline
      and, for extents, a tree the walk accepts. */
  predicate Mappable(image: seq<byte>, bs: nat, inode: seq<byte>, size: nat)
    requires bs > 0 && |inode| >= 128
  {
    BlocksFor(size, bs) == 0 ||
    (BlocksFor(size, bs) <= BlockCap(bs) && !Flag(InodeFlags(inode), INODE_INLINE_DATA) &&
     (Flag(InodeFlags(inode), INODE_EXTENTS) ==> Tree(image, bs, inode).Some?))
  }

  /** The files whose content the driver will return. */
  predicate Readable(image: seq<byte>, bs: nat, inode: seq<byte>)
    requires bs > 0 && |inode| >= 128
  {
    InodeSize(inode) <= MAX_FILE_BYTES && (FastSymlink(inode) || Mappable(image, bs, inode, InodeSize(inode)))
  }

  /** Under the cap the triple indirect pointer is never followed. */
  method InodeBlocks(fs: Ext2Fs, inode: seq<byte>, size: nat) returns (r: Result<seq<nat>>, ghost triple: bool)
    requires BlockSizeAccepted(fs.blockSize) && |inode| >= 128
    modifies fs.disk
    ensures r.Ok? <==> Mappable(fs.disk.image, fs.blockSize, inode, size) && fs.disk.failures == old(fs.disk.failures)
    ensures fs.disk.failures >= old(fs.disk.failures)
    ensures r.Ok? ==> |r.value| == BlocksFor(size, fs.blockSize)
    ensures r.Ok? ==> forall l :: 0 <= l < |r.value| ==> r.value[l] == LogicalMap(fs.disk.image, fs.blockSize, inode, l)
    ensures BlocksFor(size, fs.blockSize) > BlockCap(fs.blockSize) ==> r == Err(NotSupported)
    ensures size > 0 && Flag(InodeFlags(inode), INODE_INLINE_DATA) ==> r.Err?
    ensures !triple
  {
    var bs := fs.blockSize;
    var needed := BlocksFor(size, bs);
    if needed == 0 {
      return Ok([]), false;
    }
    if needed > MAX_FILE_BYTES / bs + 1 {
      return Err(NotSupported), false;
    }
    var flags := InodeFlags(inode);
    if Flag(flags, INODE_INLINE_DATA) {
      return Err(NotSupported), false;
    }
    triple := false;
    if Flag(flags, INODE_EXTENTS) {
      r := ExtentBlocks(fs, inode, needed);
    } else {
      var blocks;
      CapWithinDouble(bs);
      blocks, triple := fs.IndirectBlocks(inode, needed);
      if blocks.None? {
        return Err(IoError), triple;
      }
      ReachFormula(PerBlock(bs));
      return Ok(blocks.value), triple;
    }
  }

  /** The whole content of a file. */
  method ReadInodeContent(fs: Ext2Fs, inode: seq<byte>) returns (r: Result<seq<byte>>)
    requires BlockSizeAccepted(fs.blockSize) && |inode| >= 128
    modifies fs.disk
    ensures r.Ok? <==> Readable(fs.disk.image, fs.blockSize, inode) && fs.disk.failures == old(fs.disk.failures)
    ensures r.Ok? && 0 < InodeSize(inode) && FastSymlink(inode) ==> r.value == inode[40..40 + InodeSize(inode)]
    ensures r.Ok? && !FastSymlink(inode) ==> IsContent(fs.disk.image, fs.blockSize, inode, r.value)
    ensures InodeSize(inode) > MAX_FILE_BYTES ==> r == Err(NotSupported)
  {
    var size := InodeSize(inode);
    if size == 0 {
      return Ok([]);
    }
    if size > MAX_FILE_BYTES {
      return Err(NotSupported);
    }
    if FastSymlink(inode) {
      return Ok(inode[40..40 + size]);
    }
    var blocks, triple := InodeBlocks(fs, inode, size);
    if blocks.Err? {
      return Err(blocks.error);
    }
    r := AssembleBlocks(fs, blocks.value, size, Mapping(fs.disk.image, fs.blockSize, inode));
  }

  method AssembleBlocks(fs: Ext2Fs, blocks: seq<nat>, size: nat, ghost map_: nat -> nat) returns (r: Result<seq<byte>>)
    requires BlockSizeAccepted(fs.blockSize) && |blocks| == BlocksFor(size, fs.blockSize)
    requires forall l :: 0 <= l < |blocks| ==> blocks[l] == map_(l)
    modifies fs.disk
    ensures r.Ok? <==> fs.disk.failures == old(fs.disk.failures)
    ensures r.Ok? ==> |r.value| == size
    ensures r.Ok? ==> forall k :: 0 <= k < size ==> r.value[k] == FileByte(fs.disk.image, fs.blockSize, map_, k)
  {
    var bs := fs.blockSize;
    var data := new byte[size](_ => 0);
    var i := 0;
    while i < |blocks| && i * bs < size
      invariant 0 <= i <= |blocks| && fs.disk.failures == old(fs.disk.failures)
      invariant forall k :: 0 <= k < size && k < i * bs ==> data[k] == FileByte(fs.disk.image, bs, map_, k)
      invariant forall k :: i * bs <= k < size ==> data[k] == 0
    {
      var ok := CopyBlock(fs, data, i * bs, blocks[i], i, map_);
      if !ok {
        return Err(IoError);
      }
      NextMultiple(i, bs);
      i := i + 1;
    }
    return Ok(data[..]);
  }

  lemma OffsetInBlock(i: nat, k: nat, bs: nat)
    requires bs > 0 && i * bs <= k < i * bs + bs
    ensures k / bs == i && k % bs == k - i * bs
  {
    DivModUnique(i, k - i * bs, bs);
  }

  /** Copies one mapped block to its place; a hole leaves the zeros. */
  method CopyBlock(fs: Ext2Fs, data: array<byte>, off: nat, block: nat, ghost i: nat, ghost map_: nat -> nat) returns (ok: bool)
    requires BlockSizeAccepted(fs.blockSize) && off == i * fs.blockSize && off < data.Length && block == map_(i)
    requires forall k :: off <= k < data.Length ==> data[k] == 0
    modifies data, fs.disk
    ensures fs.disk.failures == old(fs.disk.failures) + (if ok then 0 else 1)
    ensures forall k :: 0 <= k < off || off + fs.blockSize <= k < data.Length ==> data[k] == old(data[k])
    ensures ok ==> forall k :: off <= k < off + fs.blockSize && k < data.Length ==> data[k] == FileByte(fs.disk.image, fs.blockSize, map_, k)
  {
    var bs := fs.blockSize;
    forall k | off <= k < off + bs
      ensures k / bs == i && k % bs == k - off
    {
      OffsetInBlock(i, k, bs);
    }
    if block == 0 {
      return true;
    }
    var buf := fs.ReadBlock(block);
    if buf.None? {
      return false;
    }
    var take := Min(data.Length - off, bs);
    forall k | off <= k < off + take {
      data[k] := buf.value[k - off];
    }
    return true;
  }
}
