/** Cluster chains of kernel/src/fs/exfat.rs: the uncached walk through the
    FAT, the per-file cursor cache, and reads by byte offset. */
module ExfatChain {
  import opened Arith
  import opened BlockDevice
  import opened Wire

  const FAT_EOC: nat := 0xFFFF_FFF8
  const FAT_BAD: nat := 0xFFFF_FFF7

  predicate ClusterOk(cluster: nat, clusterCount: nat) {
    2 <= cluster < clusterCount + 2
  }

  /** Volume geometry; `clusterSize` caches bytesPerSector * sectorsPerCluster. */
  datatype Boot = Boot(bytesPerSector: nat, sectorsPerCluster: nat, clusterSize: nat, fatOffset: nat, heapOffset: nat, clusterCount: nat) {
    /** What the boot-sector check leaves: 512 to 4096 bytes a sector, and
        cluster numbers that fit 32 bits. */
    predicate Valid() {
      && bytesPerSector in {512, 1024, 2048, 4096}
      && clusterSize >= 512 && clusterSize % 512 == 0
      && 0 < clusterCount < 0x1_0000_0000 - 2
    }

    predicate SizeMatches() {
      clusterSize == bytesPerSector * sectorsPerCluster
    }

    predicate InHeap(cluster: nat) {
      ClusterOk(cluster, clusterCount)
    }

    /** First 512-byte sector of a cluster, as the driver computes it. */
    function ClusterLba(cluster: nat): nat
      requires cluster >= 2
    {
      (heapOffset + (cluster - 2) * sectorsPerCluster) * (bytesPerSector / 512)
    }

    /** First byte of a cluster: clusters follow one another from the heap on. */
    function ClusterStart(cluster: nat): nat
      requires cluster >= 2
    {
      heapOffset * bytesPerSector + (cluster - 2) * clusterSize
    }
  }

  lemma LbaIsStart(boot: Boot, cluster: nat)
    requires boot.Valid() && boot.SizeMatches() && cluster >= 2
    ensures boot.ClusterLba(cluster) * SECTOR_SIZE == boot.ClusterStart(cluster)
  {
    ScaledSum(boot.heapOffset, cluster - 2, boot.sectorsPerCluster, boot.bytesPerSector / 512);
  }

  lemma ScaledSum(h: nat, c: nat, spc: nat, k: nat)
    ensures (h + c * spc) * k * 512 == h * (512 * k) + c * (512 * k * spc)
  {
    assert (h + c * spc) * k == h * k + c * spc * k;
    assert c * spc * k * 512 == c * (512 * k * spc);
  }

  function FatWord(image: seq<byte>, boot: Boot, cluster: nat): u32 {
    U32At(image, boot.fatOffset * boot.bytesPerSector + cluster * 4)
  }

  /** The successor of a cluster, if its FAT entry names one. */
  function Next(image: seq<byte>, boot: Boot, cluster: nat): Option<nat> {
    var next := FatWord(image, boot, cluster);
    if next >= FAT_EOC || next == FAT_BAD || !boot.InHeap(next) then None else Some(next)
  }

  /** The i-th cluster of a chain, walked from its first cluster without a cache. */
  function Walk(image: seq<byte>, boot: Boot, first: nat, i: nat): Option<nat> {
    if i == 0 then Some(first)
    else
      match Walk(image, boot, first, i - 1)
      case None => None
      case Some(c) => Next(image, boot, c)
  }

  /** The i-th cluster of a file, chained or contiguous. */
  function FileCluster(image: seq<byte>, boot: Boot, first: nat, noFatChain: bool, i: nat): Option<nat> {
    if noFatChain then (if first + i < boot.clusterCount + 2 then Some(first + i) else None)
    else Walk(image, boot, first, i)
  }

  lemma {:induction false} WalkInHeap(image: seq<byte>, boot: Boot, first: nat, i: nat)
    requires boot.InHeap(first)
    ensures Walk(image, boot, first, i).Some? ==> boot.InHeap(Walk(image, boot, first, i).value)
  {
  }

  lemma FileClusterInHeap(image: seq<byte>, boot: Boot, first: nat, noFatChain: bool, i: nat)
    requires boot.InHeap(first)
    ensures var c := FileCluster(image, boot, first, noFatChain, i); c.Some? ==> boot.InHeap(c.value)
  {
    WalkInHeap(image, boot, first, i);
  }

  /** A chain that ends stays ended. */
  lemma {:induction false} WalkEnds(image: seq<byte>, boot: Boot, first: nat, i: nat, j: nat)
    requires i <= j && Walk(image, boot, first, i) == None
    ensures Walk(image, boot, first, j) == None
  {
    if i < j {
      WalkEnds(image, boot, first, i, j - 1);
    }
  }

  /** A FAT that links consecutive clusters gives the contiguous file. */
  lemma {:induction false} ConsecutiveChain(image: seq<byte>, boot: Boot, first: nat, n: nat, i: nat)
    requires i < n && boot.InHeap(first) && first + n <= boot.clusterCount + 2
    requires forall j :: first <= j < first + n - 1 ==> Next(image, boot, j) == Some(j + 1)
    ensures FileCluster(image, boot, first, false, i) == FileCluster(image, boot, first, true, i) == Some(first + i)
  {
    if i > 0 {
      ConsecutiveChain(image, boot, first, n, i - 1);
      assert Next(image, boot, first + i - 1) == Some(first + i - 1 + 1);
    }
  }

  method FatEntry(disk: Disk, boot: Boot, cluster: nat) returns (r: Result<u32>)
    requires boot.Valid()
    modifies disk
    ensures r.Ok? <==> cluster < boot.clusterCount + 2 && disk.failures == old(disk.failures)
    ensures disk.failures >= old(disk.failures)
    ensures r.Ok? ==> r.value == FatWord(disk.image, boot, cluster)
    ensures cluster >= boot.clusterCount + 2 ==> r == Err(IoError)
  {
    if cluster >= boot.clusterCount + 2 {
      return Err(IoError);
    }
    var at := boot.fatOffset * boot.bytesPerSector + cluster * 4;
    var sector, offset := at / 512, at % 512;
    FatAligned(boot.fatOffset, boot.bytesPerSector, cluster);
    var buf := disk.Read(sector, 512);
    if buf.None? {
      return Err(IoError);
    }
    return Ok(Le32(buf.value, offset));
  }

  lemma FatAligned(fatOffset: nat, bps: nat, cluster: nat)
    requires bps in {512, 1024, 2048, 4096}
    ensures (fatOffset * bps + cluster * 4) % 512 <= 508
  {
    var sectors := if bps == 512 then fatOffset else if bps == 1024 then fatOffset * 2 else if bps == 2048 then fatOffset * 4 else fatOffset * 8;
    assert fatOffset * bps == sectors * 512;
    FourInSector(sectors, cluster);
  }

  lemma FourInSector(sectors: nat, cluster: nat)
    ensures (sectors * 512 + cluster * 4) % 512 <= 508
  {
    var q, r := cluster / 128, cluster % 128;
    DivModUnique(sectors + q, r * 4, 512);
  }

  method NextCluster(disk: Disk, boot: Boot, cluster: nat) returns (r: Result<Option<nat>>)
    requires boot.Valid()
    modifies disk
    ensures r.Ok? <==> cluster < boot.clusterCount + 2 && disk.failures == old(disk.failures)
    ensures disk.failures >= old(disk.failures)
    ensures r.Ok? ==> r.value == Next(disk.image, boot, cluster)
  {
    var entry := FatEntry(disk, boot, cluster);
    if entry.Err? {
      return Err(entry.error);
    }
    var next := entry.value;
    if next >= FAT_EOC {
      return Ok(None);
    }
    if next == FAT_BAD || next < 2 || next >= boot.clusterCount + 2 {
      return Ok(None);
    }
    return Ok(Some(next));
  }

  /** `out` is the beginning of the walk. */
  ghost predicate IsWalk(image: seq<byte>, boot: Boot, first: nat, out: seq<nat>) {
    forall i {:trigger out[i]} :: 0 <= i < |out| ==> Walk(image, boot, first, i) == Some(out[i])
  }

  lemma WalkGrows(image: seq<byte>, boot: Boot, first: nat, out: seq<nat>, cur: nat)
    requires IsWalk(image, boot, first, out) && Walk(image, boot, first, |out|) == Some(cur)
    ensures IsWalk(image, boot, first, out + [cur])
    ensures Walk(image, boot, first, |out| + 1) == Next(image, boot, cur)
  {
  }

  /** The clusters of a chain, `maxClusters` of them at most, so a cyclic FAT
      cannot hold it up. */
  method Chain(disk: Disk, boot: Boot, first: nat, maxClusters: nat) returns (r: Result<seq<nat>>)
    requires boot.Valid()
    modifies disk
    ensures r.Ok? <==> maxClusters > 0 && boot.InHeap(first) && disk.failures == old(disk.failures)
    ensures disk.failures >= old(disk.failures)
    ensures r.Ok? ==> 0 < |r.value| <= maxClusters && boot.InHeap(first)
    ensures r.Ok? ==> IsWalk(disk.image, boot, first, r.value)
    ensures r.Ok? && |r.value| < maxClusters ==> Walk(disk.image, boot, first, |r.value|) == None
  {
    var out: seq<nat> := [];
    var cur := first;
    while |out| < maxClusters
      invariant |out| <= maxClusters && Walk(disk.image, boot, first, |out|) == Some(cur)
      invariant IsWalk(disk.image, boot, first, out) && disk.failures == old(disk.failures)
      invariant out != [] ==> boot.InHeap(first) && boot.InHeap(cur)
    {
      if cur < 2 || cur >= boot.clusterCount + 2 {
        break;
      }
      WalkGrows(disk.image, boot, first, out, cur);
      out := out + [cur];
      var next := NextCluster(disk, boot, cur);
      if next.Err? {
        return Err(next.error);
      }
      if next.value.None? {
        return Ok(out);
      }
      cur := next.value.value;
    }
    if out == [] {
      return Err(IoError);
    }
    return Ok(out);
  }
}
