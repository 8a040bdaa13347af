/** Logical-to-physical block maps of kernel/src/fs/ext2.rs: classic block
    pointers (12 direct, then single, double and triple indirect). */
module Ext2BlockMap {
  import opened Arith
  import opened BlockDevice
  import opened Wire

  const DIRECT: nat := 12
  const SINGLE_SLOT: nat := 12
  const DOUBLE_SLOT: nat := 13
  const TRIPLE_SLOT: nat := 14

  /** A pointer of i_block; block numbers are 32 bits wide here. */
  function Ptr(inode: seq<byte>, slot: nat): u32 {
    U32At(inode, 40 + slot * 4)
  }

  function PerBlock(bs: nat): nat {
    Max(bs / 4, 1)
  }

  /** Blocks reached through one pointer at the given level. */
  function Span(p: nat, level: nat): nat {
    if level == 0 then 1 else p * Span(p, level - 1)
  }

  /** Word `k` of physical block `block`. */
  function BlockWord(image: seq<byte>, bs: nat, block: nat, k: nat): u32 {
    U32At(image, block * bs + 4 * k)
  }

  /** Follows `level` pointers below `root`; a zero pointer is a hole at any level. */
  function Resolve(image: seq<byte>, bs: nat, level: nat, root: u32, i: nat): u32
    requires bs > 0
  {
    if root == 0 then 0
    else if level == 0 then root
    else
      SpanPositive(PerBlock(bs), level - 1);
      var span := Span(PerBlock(bs), level - 1);
      Resolve(image, bs, level - 1, BlockWord(image, bs, root, i / span), i % span)
  }

  lemma SpanPositive(p: nat, level: nat)
    requires p > 0
    ensures Span(p, level) > 0
  {
    if level > 0 {
      SpanPositive(p, level - 1);
      assert p * Span(p, level - 1) >= 1 * 1;
    }
  }

  /** The block map of an inode: physical block of logical block i, 0 for a hole. */
  function PointerMap(image: seq<byte>, bs: nat, inode: seq<byte>, i: nat): u32
    requires bs > 0
  {
    var p := PerBlock(bs);
    if i < DIRECT then Ptr(inode, i)
    else if i < DIRECT + p then Resolve(image, bs, 1, Ptr(inode, SINGLE_SLOT), i - DIRECT)
    else if i < DIRECT + p + p * p then Resolve(image, bs, 2, Ptr(inode, DOUBLE_SLOT), i - DIRECT - p)
    else Resolve(image, bs, 3, Ptr(inode, TRIPLE_SLOT), i - DIRECT - p - p * p)
  }

  /** Entries a whole level contributes, and where it starts in the map. */
  function LevelCount(p: nat, level: nat): nat {
    if level == 0 then DIRECT else if level == 1 then p else if level == 2 then p * p else p * (p * p)
  }

  function LevelStart(p: nat, level: nat): nat {
    if level == 0 then 0 else LevelStart(p, level - 1) + LevelCount(p, level - 1)
  }

  /** The number of entries all levels together can map. */
  function Reach(p: nat): nat {
    LevelStart(p, 4)
  }

  lemma LevelStartMono(p: nat, a: nat, b: nat)
    requires a <= b
    ensures LevelStart(p, a) <= LevelStart(p, b)
  {
    if a < b {
      LevelStartMono(p, a, b - 1);
    }
  }

  lemma ReachFormula(p: nat)
    ensures LevelStart(p, 1) == DIRECT && LevelStart(p, 2) == DIRECT + p && LevelStart(p, 3) == DIRECT + p + p * p
    ensures Reach(p) == DIRECT + p + p * p + p * p * p
  {
    assert LevelStart(p, 1) == LevelStart(p, 0) + DIRECT;
    assert LevelStart(p, 2) == LevelStart(p, 1) + p;
    assert LevelStart(p, 3) == LevelStart(p, 2) + p * p;
    assert p * (p * p) == p * p * p;
  }

  /** One level down: entry i*span + j below `root` is entry j below the i-th
      pointer of the root's block. */
  lemma ResolveStep(image: seq<byte>, bs: nat, level: nat, root: u32, i: nat, j: nat)
    requires bs > 0 && level > 0 && root != 0
    requires j < Span(PerBlock(bs), level - 1)
    ensures Resolve(image, bs, level, root, i * Span(PerBlock(bs), level - 1) + j) ==
      Resolve(image, bs, level - 1, BlockWord(image, bs, root, i), j)
  {
    DivModUnique(i, j, Span(PerBlock(bs), level - 1));
  }

  const MAX_FILE_BYTES: nat := 64 * 1024 * 1024

  /** The most blocks `inode_blocks` agrees to map. */
  function BlockCap(bs: nat): nat
    requires bs > 0
  {
    MAX_FILE_BYTES / bs + 1
  }

  /** Under the cap the double indirect block is always enough. */
  lemma CapWithinDouble(bs: nat)
    requires BlockSizeAccepted(bs)
    ensures BlockCap(bs) <= DIRECT + PerBlock(bs) + PerBlock(bs) * PerBlock(bs)
  {
  }

  /** Under the cap the map does not depend on the triple indirect pointer. */
  lemma TripleNeverConsulted(image: seq<byte>, bs: nat, inode: seq<byte>, inode': seq<byte>, i: nat)
    requires BlockSizeAccepted(bs) && i < BlockCap(bs)
    requires forall slot :: 0 <= slot < TRIPLE_SLOT ==> Ptr(inode, slot) == Ptr(inode', slot)
    ensures PointerMap(image, bs, inode, i) == PointerMap(image, bs, inode', i)
  {
    CapWithinDouble(bs);
  }

  /** The block sizes the mount accepts: 1024 << log, log up to 6. */
  predicate BlockSizeAccepted(bs: nat) {
    bs in {1024, 2048, 4096, 8192, 16384, 32768, 65536}
  }

  /** Bytes of physical block `block`, if the image holds all of them. */
  predicate HasBlock(image: seq<byte>, bs: nat, block: nat) {
    block * bs + bs <= |image|
  }

  function BlockBytes(image: seq<byte>, bs: nat, block: nat): (b: seq<byte>)
    requires HasBlock(image, bs, block)
    ensures |b| == bs
  {
    image[block * bs..block * bs + bs]
  }

  lemma WordOfBlock(image: seq<byte>, bs: nat, block: nat, k: nat)
    requires HasBlock(image, bs, block) && 4 * k + 4 <= bs
    ensures U32At(BlockBytes(image, bs, block), k * 4) == BlockWord(image, bs, block, k)
  {
  }

  class Ext2Fs {
    const disk: Disk
    const blockSize: nat

    constructor (disk: Disk, blockSize: nat)
      requires BlockSizeAccepted(blockSize)
      ensures this.disk == disk && this.blockSize == blockSize
    {
      this.disk, this.blockSize := disk, blockSize;
    }

    /** A block whose address does not fit 64 bits is a failed request too. */
    method ReadBlock(block: nat) returns (r: Option<seq<byte>>)
      requires BlockSizeAccepted(blockSize)
      modifies disk
      ensures disk.failures == old(disk.failures) + Failed(r)
      ensures r.Some? ==> HasBlock(disk.image, blockSize, block) && r.value == BlockBytes(disk.image, blockSize, block)
    {
      if block > 0xFFFF_FFFF_FFFF_FFFF / blockSize {
        disk.failures := disk.failures + 1;
        return None;
      }
      var sector := block * (blockSize / SECTOR_SIZE);
      SectorOfBlock(block, blockSize / SECTOR_SIZE);
      r := disk.Read(sector, blockSize);
    }

    lemma SectorOfBlock(block: nat, sectors: nat)
      ensures block * sectors * SECTOR_SIZE == block * (sectors * SECTOR_SIZE)
    {
    }

    /** `out` continues `before` with the entries reached through `root`, as
        many as `needed` asks for and the level holds. */
    ghost predicate Extends(before: seq<u32>, out: seq<u32>, level: nat, root: u32, count: nat, needed: nat)
      requires blockSize > 0
    {
      && before <= out
      && |out| == Min(needed, |before| + count)
      && forall k :: |before| <= k < |out| ==> out[k] == Resolve(disk.image, blockSize, level, root, k - |before|)
    }

    /** Entries of a hole; `cut` when `needed` was met with entries to spare. */
    method PushHoles(before: seq<u32>, count: nat, needed: nat) returns (out: seq<u32>, cut: bool)
      requires |before| <= needed && blockSize > 0
      ensures forall level: nat :: Extends(before, out, level, 0, count, needed)
      ensures cut <==> |before| + count > needed
    {
      out := before;
      var k := 0;
      while k < count && |out| < needed
        invariant 0 <= k <= count && before <= out && |out| == |before| + k && |out| <= needed
        invariant forall i :: |before| <= i < |out| ==> out[i] == 0
      {
        out := out + [0];
        k := k + 1;
      }
      cut := k < count;
    }

    /** The pointers of a leaf block. */
    method PushLeaf(before: seq<u32>, block: u32, buf: seq<byte>, needed: nat) returns (out: seq<u32>, cut: bool)
      requires BlockSizeAccepted(blockSize) && |before| <= needed && block != 0
      requires HasBlock(disk.image, blockSize, block) && buf == BlockBytes(disk.image, blockSize, block)
      ensures Extends(before, out, 1, block, PerBlock(blockSize), needed)
      ensures cut <==> |before| + PerBlock(blockSize) > needed
    {
      var perBlock := PerBlock(blockSize);
      out := before;
      var k := 0;
      while k < perBlock && |out| < needed
        invariant 0 <= k <= perBlock && before <= out && |out| == |before| + k && |out| <= needed
        invariant forall i :: |before| <= i < |out| ==> out[i] == Resolve(disk.image, blockSize, 1, block, i - |before|)
      {
        WordOfBlock(disk.image, blockSize, block, k);
        LeafEntry(block, k);
        out := out + [U32At(buf, k * 4)];
        k := k + 1;
      }
      cut := k < perBlock;
    }

    lemma LeafEntry(block: u32, k: nat)
      requires BlockSizeAccepted(blockSize) && block != 0
      ensures Resolve(disk.image, blockSize, 1, block, k) == BlockWord(disk.image, blockSize, block, k)
    {
      assert Span(PerBlock(blockSize), 0) == 1;
    }

    /** Appending the subtree of the i-th pointer of `root`'s block. */
    lemma ExtendsStep(before: seq<u32>, mid: seq<u32>, out: seq<u32>, level: nat, root: u32, i: nat, needed: nat)
      requires BlockSizeAccepted(blockSize) && level > 0 && root != 0
      requires var span := Span(PerBlock(blockSize), level - 1);
        && Extends(before, mid, level, root, i * span, needed) && |mid| == |before| + i * span
        && Extends(mid, out, level - 1, BlockWord(disk.image, blockSize, root, i), span, needed)
      ensures Extends(before, out, level, root, (i + 1) * Span(PerBlock(blockSize), level - 1), needed)
    {
      var span := Span(PerBlock(blockSize), level - 1);
      NextMultiple(i, span);
      forall k | |mid| <= k < |out|
        ensures out[k] == Resolve(disk.image, blockSize, level, root, k - |before|)
      {
        ResolveStep(disk.image, blockSize, level, root, i, k - |mid|);
      }
    }

    /** Once `needed` entries are there, more subtrees would change nothing. */
    lemma ExtendsFull(before: seq<u32>, out: seq<u32>, level: nat, root: u32, count: nat, count': nat, needed: nat)
      requires blockSize > 0 && count <= count'
      requires Extends(before, out, level, root, count, needed) && |out| == needed
      ensures Extends(before, out, level, root, count', needed)
    {
    }

    lemma Spans()
      requires BlockSizeAccepted(blockSize)
      ensures var p := PerBlock(blockSize);
        p == blockSize / 4 && Span(p, 0) == 1 && Span(p, 1) == p && Span(p, 2) == p * p && Span(p, 3) == p * (p * p)
    {
      var p := PerBlock(blockSize);
      assert Span(p, 1) == p * Span(p, 0);
    }

    /** The entries below one pointer to a leaf block, or holes. */
    method PushRow(before: seq<u32>, block: u32, needed: nat) returns (r: Option<seq<u32>>, cut: bool)
      requires BlockSizeAccepted(blockSize) && |before| <= needed
      modifies disk
      ensures disk.failures == old(disk.failures) + Failed(r)
      ensures r.Some? ==> Extends(before, r.value, 1, block, PerBlock(blockSize), needed)
      ensures r.Some? ==> (cut <==> |before| + PerBlock(blockSize) > needed)
    {
      var out;
      if block == 0 {
        out, cut := PushHoles(before, PerBlock(blockSize), needed);
      } else {
        var buf := ReadBlock(block);
        if buf.None? {
          return None, false;
        }
        out, cut := PushLeaf(before, block, buf.value, needed);
      }
      return Some(out), cut;
    }

    method SingleIndirect(before: seq<u32>, indirect: u32, needed: nat) returns (r: Option<seq<u32>>)
      requires BlockSizeAccepted(blockSize) && |before| < needed
      modifies disk
      ensures disk.failures == old(disk.failures) + Failed(r)
      ensures r.Some? ==> Extends(before, r.value, 1, indirect, PerBlock(blockSize), needed)
    {
      var cut;
      r, cut := PushRow(before, indirect, needed);
    }

    method DoubleIndirect(before: seq<u32>, dindirect: u32, needed: nat) returns (r: Option<seq<u32>>)
      requires BlockSizeAccepted(blockSize) && |before| < needed
      modifies disk
      ensures disk.failures == old(disk.failures) + Failed(r)
      ensures r.Some? ==> Extends(before, r.value, 2, dindirect, PerBlock(blockSize) * PerBlock(blockSize), needed)
    {
      var perBlock := PerBlock(blockSize);
      Spans();
      if dindirect == 0 {
        var holes, _ := PushHoles(before, perBlock * perBlock, needed);
        return Some(holes);
      }
      var l1 := ReadBlock(dindirect);
      if l1.None? {
        return None;
      }
      var out := before;
      var i := 0;
      while i < perBlock && |out| < needed
        invariant 0 <= i <= perBlock
        invariant Extends(before, out, 2, dindirect, i * perBlock, needed)
        invariant disk.failures == old(disk.failures)
      {
        WordOfBlock(disk.image, blockSize, dindirect, i);
        var second := U32At(l1.value, i * 4);
        var row, _ := PushRow(out, second, needed);
        if row.None? {
          return None;
        }
        ExtendsStep(before, out, row.value, 2, dindirect, i, needed);
        out := row.value;
        i := i + 1;
      }
      if |out| == needed {
        MulMono(i, perBlock, perBlock);
        ExtendsFull(before, out, 2, dindirect, i * perBlock, perBlock * perBlock, needed);
      }
      return Some(out);
    }

    /** The subtree below one second-level pointer of the triple indirect
        block. Unlike `DoubleIndirect` it reads the next block before looking
        whether `needed` is met, so it may read one block too many. */
    method TripleRow(before: seq<u32>, second: u32, needed: nat) returns (r: Option<seq<u32>>, cut: bool)
      requires BlockSizeAccepted(blockSize) && |before| <= needed
      modifies disk
      ensures disk.failures == old(disk.failures) + Failed(r)
      ensures r.Some? ==> Extends(before, r.value, 2, second, PerBlock(blockSize) * PerBlock(blockSize), needed)
      ensures r.Some? ==> (cut <==> |before| + PerBlock(blockSize) * PerBlock(blockSize) > needed)
    {
      var perBlock := PerBlock(blockSize);
      Spans();
      var out := before;
      if second == 0 {
        out, cut := PushHoles(before, perBlock * perBlock, needed);
        return Some(out), cut;
      }
      var l2 := ReadBlock(second);
      if l2.None? {
        return None, false;
      }
      var j := 0;
      cut := false;
      while j < perBlock && !cut
        invariant 0 <= j <= perBlock
        invariant Extends(before, out, 2, second, j * perBlock, needed)
        invariant cut <==> |before| + j * perBlock > needed
        invariant disk.failures == old(disk.failures)
      {
        WordOfBlock(disk.image, blockSize, second, j);
        var third := U32At(l2.value, j * 4);
        var row;
        row, cut := PushRow(out, third, needed);
        if row.None? {
          return None, false;
        }
        ExtendsStep(before, out, row.value, 2, second, j, needed);
        out := row.value;
        NextMultiple(j, perBlock);
        j := j + 1;
      }
      MulMono(j, perBlock, perBlock);
      if cut {
        ExtendsFull(before, out, 2, second, j * perBlock, perBlock * perBlock, needed);
      }
      return Some(out), cut;
    }

    /** Row `i` of the triple indirect block. */
    method TripleStep(ghost before: seq<u32>, mid: seq<u32>, tindirect: u32, l1: seq<byte>, i: nat, needed: nat) returns (r: Option<seq<u32>>, cut: bool)
      requires BlockSizeAccepted(blockSize) && tindirect != 0 && i < PerBlock(blockSize)
      requires HasBlock(disk.image, blockSize, tindirect) && l1 == BlockBytes(disk.image, blockSize, tindirect)
      requires var square := PerBlock(blockSize) * PerBlock(blockSize);
        Extends(before, mid, 3, tindirect, i * square, needed) && |before| + i * square <= needed
      modifies disk
      ensures disk.failures == old(disk.failures) + Failed(r)
      ensures var square := PerBlock(blockSize) * PerBlock(blockSize);
        r.Some? ==> Extends(before, r.value, 3, tindirect, (i + 1) * square, needed) && (cut <==> |before| + (i + 1) * square > needed)
    {
      Spans();
      WordOfBlock(disk.image, blockSize, tindirect, i);
      r, cut := TripleRow(mid, U32At(l1, i * 4), needed);
      if r.Some? {
        ExtendsStep(before, mid, r.value, 3, tindirect, i, needed);
        NextMultiple(i, PerBlock(blockSize) * PerBlock(blockSize));
      }
    }

    method TripleIndirect(before: seq<u32>, tindirect: u32, needed: nat) returns (r: Option<seq<u32>>)
      requires BlockSizeAccepted(blockSize) && |before| < needed
      modifies disk
      ensures disk.failures == old(disk.failures) + Failed(r)
      ensures r.Some? ==> Extends(before, r.value, 3, tindirect, PerBlock(blockSize) * (PerBlock(blockSize) * PerBlock(blockSize)), needed)
    {
      var perBlock := PerBlock(blockSize);
      ghost var square := perBlock * perBlock;
      if tindirect == 0 {
        var holes, _ := PushHoles(before, perBlock * (perBlock * perBlock), needed);
        return Some(holes);
      }
      var l1 := ReadBlock(tindirect);
      if l1.None? {
        return None;
      }
      var out := before;
      var i := 0;
      var cut := false;
      while i < perBlock && !cut
        invariant 0 <= i <= perBlock
        invariant Extends(before, out, 3, tindirect, i * square, needed)
        invariant cut <==> |before| + i * square > needed
        invariant disk.failures == old(disk.failures)
      {
        var row;
        row, cut := TripleStep(before, out, tindirect, l1.value, i, needed);
        if row.None? {
          return None;
        }
        out := row.value;
        i := i + 1;
      }
      if cut {
        MulMono(i, perBlock, square);
        ExtendsFull(before, out, 3, tindirect, i * square, perBlock * square, needed);
      }
      return Some(out);
    }

    /** The first `needed` entries of the block map, up to `limit`. */
    ghost predicate IsMapPrefix(inode: seq<byte>, out: seq<u32>, limit: nat, needed: nat)
      requires blockSize > 0
    {
      && |out| == Min(needed, limit)
      && forall i :: 0 <= i < |out| ==> out[i] == PointerMap(disk.image, blockSize, inode, i)
    }

    /** The entries of one level continue the map where the level before ended. */
    lemma LevelContinues(inode: seq<byte>, before: seq<u32>, out: seq<u32>, level: nat, needed: nat)
      requires BlockSizeAccepted(blockSize) && 1 <= level <= 3
      requires |before| == LevelStart(PerBlock(blockSize), level) && IsMapPrefix(inode, before, |before|, needed)
      requires Extends(before, out, level, Ptr(inode, DIRECT - 1 + level), LevelCount(PerBlock(blockSize), level), needed)
      ensures IsMapPrefix(inode, out, LevelStart(PerBlock(blockSize), level + 1), needed)
    {
      forall k | |before| <= k < |out|
        ensures out[k] == PointerMap(disk.image, blockSize, inode, k)
      {
        MapAtLevel(inode, level, k - |before|);
      }
    }

    /** The map from the start of a level on is what its pointer reaches. */
    lemma MapAtLevel(inode: seq<byte>, level: nat, i: nat)
      requires BlockSizeAccepted(blockSize) && 1 <= level <= 3 && i < LevelCount(PerBlock(blockSize), level)
      ensures PointerMap(disk.image, blockSize, inode, LevelStart(PerBlock(blockSize), level) + i)
           == Resolve(disk.image, blockSize, level, Ptr(inode, DIRECT - 1 + level), i)
    {
      ReachFormula(PerBlock(blockSize));
    }

    method DirectBlocks(inode: seq<byte>, needed: nat) returns (out: seq<u32>)
      requires blockSize > 0
      ensures IsMapPrefix(inode, out, LevelStart(PerBlock(blockSize), 1), needed)
    {
      ReachFormula(PerBlock(blockSize));
      out := [];
      for i := 0 to DIRECT
        invariant |out| == i <= needed
        invariant forall k :: 0 <= k < i ==> out[k] == Ptr(inode, k)
      {
        if |out| >= needed {
          return;
        }
        out := out + [Ptr(inode, i)];
      }
    }

    method Level(inode: seq<byte>, before: seq<u32>, level: nat, needed: nat) returns (r: Option<seq<u32>>)
      requires BlockSizeAccepted(blockSize) && 1 <= level <= 3 && |before| < needed
      requires IsMapPrefix(inode, before, LevelStart(PerBlock(blockSize), level), needed)
      modifies disk
      ensures disk.failures == old(disk.failures) + Failed(r)
      ensures r.Some? ==> IsMapPrefix(inode, r.value, LevelStart(PerBlock(blockSize), level + 1), needed)
    {
      var root := Ptr(inode, DIRECT - 1 + level);
      if level == 1 {
        r := SingleIndirect(before, root, needed);
      } else if level == 2 {
        r := DoubleIndirect(before, root, needed);
      } else {
        r := TripleIndirect(before, root, needed);
      }
      if r.Some? {
        LevelContinues(inode, before, r.value, level, needed);
      }
    }

    /** `triple` tells whether the triple indirect pointer was followed: only
        where the levels before it do not reach. */
    method IndirectBlocks(inode: seq<byte>, needed: nat) returns (r: Option<seq<u32>>, ghost triple: bool)
      requires BlockSizeAccepted(blockSize)
      modifies disk
      ensures disk.failures == old(disk.failures) + Failed(r)
      ensures triple ==> needed > DIRECT + PerBlock(blockSize) + PerBlock(blockSize) * PerBlock(blockSize)
      ensures r.Some? && needed > DIRECT + PerBlock(blockSize) + PerBlock(blockSize) * PerBlock(blockSize) ==> triple
      ensures r.Some? ==> IsMapPrefix(inode, r.value, Reach(PerBlock(blockSize)), needed)
    {
      triple := false;
      ReachFormula(PerBlock(blockSize));
      var out := DirectBlocks(inode, needed);
      var level := 1;
      while level <= 3 && |out| < needed
        invariant 1 <= level <= 4
        invariant IsMapPrefix(inode, out, LevelStart(PerBlock(blockSize), level), needed)
        invariant disk.failures == old(disk.failures)
        invariant triple <==> level == 4
        invariant triple ==> needed > LevelStart(PerBlock(blockSize), 3)
      {
        triple := triple || level == 3;
        var next := Level(inode, out, level, needed);
        if next.None? {
          return None, triple;
        }
        out := next.value;
        level := level + 1;
      }
      if |out| == needed {
        LevelStartMono(PerBlock(blockSize), level, 4);
      }
      return Some(out), triple;
    }
  }
}
