/** Reading exFAT files (kernel/src/fs/exfat.rs): positioned reads through the
    cursor cache, and whole directory chains. */
module ExfatFile {
  import opened Arith
  import opened BlockDevice
  import opened ExfatChain
  import opened Wire

  /** The image byte that byte `at` of a file is stored in. */
  function FileOffset(image: seq<byte>, boot: Boot, first: nat, noFatChain: bool, at: nat): Option<nat>
    requires boot.Valid() && boot.InHeap(first)
  {
    match FileCluster(image, boot, first, noFatChain, Div(at, boot.clusterSize))
    case None => None
    case Some(c) =>
      FileClusterInHeap(image, boot, first, noFatChain, Div(at, boot.clusterSize));
      Some(boot.ClusterStart(c) + Mod(at, boot.clusterSize))
  }

  /** Byte `at` of a file, if its chain reaches it and the image holds it. */
  function FileByteAt(image: seq<byte>, boot: Boot, first: nat, noFatChain: bool, at: nat): Option<byte>
    requires boot.Valid() && boot.InHeap(first)
  {
    match FileOffset(image, boot, first, noFatChain, at)
    case None => None
    case Some(o) => if o < |image| then Some(image[o]) else None
  }

  /** `data` is what the file holds from byte `at` on. */
  ghost predicate IsFileSlice(image: seq<byte>, boot: Boot, first: nat, noFatChain: bool, at: nat, data: seq<byte>)
    requires boot.Valid() && boot.InHeap(first)
  {
    forall p :: at <= p < at + |data| ==> FileByteAt(image, boot, first, noFatChain, p) == Some(data[p - at])
  }

  /** Adjacent slices join; any split of a read gives the same bytes. */
  lemma SlicesJoin(image: seq<byte>, boot: Boot, first: nat, noFatChain: bool, at: nat, a: seq<byte>, b: seq<byte>)
    requires boot.Valid() && boot.InHeap(first)
    requires IsFileSlice(image, boot, first, noFatChain, at, a) && IsFileSlice(image, boot, first, noFatChain, at + |a|, b)
    ensures IsFileSlice(image, boot, first, noFatChain, at, a + b)
  {
    forall p | at <= p < at + |a + b|
      ensures FileByteAt(image, boot, first, noFatChain, p) == Some((a + b)[p - at])
    {
      if p < at + |a| {
        assert a[p - at] == (a + b)[p - at];
      } else {
        assert b[p - (at + |a|)] == (a + b)[p - at];
      }
    }
  }

  /** A contiguous file and a FAT chain linking the same clusters hold the
      same bytes. */
  lemma ContiguousSameBytes(image: seq<byte>, boot: Boot, first: nat, n: nat, at: nat, data: seq<byte>, data': seq<byte>)
    requires boot.Valid() && boot.InHeap(first) && first + n <= boot.clusterCount + 2
    requires forall j :: first <= j < first + n - 1 ==> Next(image, boot, j) == Some(j + 1)
    requires |data| == |data'| && at + |data| <= n * boot.clusterSize
    requires IsFileSlice(image, boot, first, false, at, data) && IsFileSlice(image, boot, first, true, at, data')
    ensures data == data'
  {
    forall k | 0 <= k < |data|
      ensures data[k] == data'[k]
    {
      var i := Div(at + k, boot.clusterSize);
      QuotientBelow(at + k, n, boot.clusterSize);
      ConsecutiveChain(image, boot, first, n, i);
      assert FileByteAt(image, boot, first, false, at + k) == FileByteAt(image, boot, first, true, at + k);
    }
  }

  lemma QuotientBelow(x: nat, n: nat, d: nat)
    requires d > 0 && x < n * d
    ensures x / d < n
  {
    DivFloor(x, d);
    if x / d >= n {
      MulMono(n, x / d, d);
      assert false;
    }
  }

  /** A request for `take` bytes `inCluster` bytes into a cluster is widened to
      whole sectors without leaving the cluster. */
  lemma RequestStaysInCluster(size: nat, inCluster: nat, take: nat)
    requires size % 512 == 0 && inCluster + take <= size
    ensures (inCluster / 512 + (inCluster % 512 + take + 511) / 512) * 512 <= size
  {
  }

  /** The contents of a directory: all clusters of its chain, up to a limit. */
  method ReadChain(disk: Disk, boot: Boot, first: nat, maxBytes: nat) returns (r: Result<seq<byte>>)
    requires boot.Valid() && boot.SizeMatches()
    modifies disk
    ensures r.Ok? <==> boot.InHeap(first) && disk.failures == old(disk.failures)
    ensures r.Ok? ==> IsFileSlice(disk.image, boot, first, false, 0, r.value)
    ensures r.Ok? ==> exists n: nat ::
      && 0 < n <= Max(maxBytes / boot.clusterSize, 1) && |r.value| == n * boot.clusterSize
      && (n < Max(maxBytes / boot.clusterSize, 1) ==> Walk(disk.image, boot, first, n) == None)
  {
    var size := boot.clusterSize;
    var limit := Max(Div(maxBytes, size), 1);
    var clusters := Chain(disk, boot, first, limit);
    if clusters.Err? {
      return Err(clusters.error);
    }
    var out: seq<byte> := [];
    for i := 0 to |clusters.value|
      invariant |out| == i * size && IsFileSlice(disk.image, boot, first, false, 0, out)
      invariant disk.failures == old(disk.failures)
    {
      var cluster := clusters.value[i];
      assert Walk(disk.image, boot, first, i) == Some(cluster);
      WalkInHeap(disk.image, boot, first, i);
      LbaIsStart(boot, cluster);
      var buf := disk.Read(boot.ClusterLba(cluster), size);
      if buf.None? {
        return Err(IoError);
      }
      WholeCluster(disk.image, boot, first, i, cluster, buf.value);
      SlicesJoin(disk.image, boot, first, false, 0, out, buf.value);
      NextMultiple(i, size);
      out := out + buf.value;
    }
    return Ok(out);
  }

  lemma WholeCluster(image: seq<byte>, boot: Boot, first: nat, i: nat, cluster: nat, bytes: seq<byte>)
    requires boot.Valid() && boot.InHeap(first) && boot.InHeap(cluster)
    requires Walk(image, boot, first, i) == Some(cluster)
    requires |bytes| == boot.clusterSize && boot.ClusterStart(cluster) + |bytes| <= |image|
    requires bytes == image[boot.ClusterStart(cluster)..boot.ClusterStart(cluster) + |bytes|]
    ensures IsFileSlice(image, boot, first, false, i * boot.clusterSize, bytes)
  {
    var at := i * boot.clusterSize;
    forall p | at <= p < at + |bytes|
      ensures FileByteAt(image, boot, first, false, p) == Some(bytes[p - at])
    {
      DivModUnique(i, p - at, boot.clusterSize);
    }
  }

  datatype SeekFrom = Start(offset: u64) | Current(delta: int) | End(delta: int)

  /** Where a seek is to lead; an offset from the start is taken as signed. */
  function SeekTarget(from: SeekFrom, position: nat, size: nat): int {
    match from
    case Start(o) => if o < 0x8000_0000_0000_0000 then o else o - 0x1_0000_0000_0000_0000
    case Current(d) => position + d
    case End(d) => size + d
  }

  class File {
    const disk: Disk
    const boot: Boot
    const firstCluster: nat
    const size: nat
    const noFatChain: bool
    var position: nat
    var cachedCluster: nat
    var cachedIndex: nat

    /** An empty cache, or a cluster the uncached walk reaches at that index. */
    ghost predicate Valid()
      reads this
    {
      && boot.Valid() && boot.SizeMatches() && boot.InHeap(firstCluster)
      && (cachedCluster == 0 || Walk(disk.image, boot, firstCluster, cachedIndex) == Some(cachedCluster))
    }

    constructor (disk: Disk, boot: Boot, firstCluster: nat, size: nat, noFatChain: bool)
      requires boot.Valid() && boot.SizeMatches() && boot.InHeap(firstCluster)
      ensures Valid() && position == 0
      ensures this.disk == disk && this.boot == boot && this.firstCluster == firstCluster && this.size == size && this.noFatChain == noFatChain
    {
      this.disk, this.boot, this.firstCluster, this.size, this.noFatChain := disk, boot, firstCluster, size, noFatChain;
      position, cachedCluster, cachedIndex := 0, 0, 0;
    }

    /** The cache never changes an answer, and a failed lookup leaves it usable. */
    method ClusterAt(index: nat) returns (r: Result<nat>)
      requires Valid()
      modifies `cachedCluster, `cachedIndex, disk
      ensures Valid()
      ensures r.Ok? <==> FileCluster(disk.image, boot, firstCluster, noFatChain, index).Some? && disk.failures == old(disk.failures)
      ensures disk.failures >= old(disk.failures)
      ensures r.Ok? ==> FileCluster(disk.image, boot, firstCluster, noFatChain, index) == Some(r.value) && boot.InHeap(r.value)
    {
      if noFatChain {
        var c := firstCluster + index;
        if c >= boot.clusterCount + 2 {
          return Err(IoError);
        }
        return Ok(c);
      }
      if cachedIndex > index || cachedCluster == 0 {
        cachedCluster := firstCluster;
        cachedIndex := 0;
      }
      WalkInHeap(disk.image, boot, firstCluster, cachedIndex);
      while cachedIndex < index
        invariant cachedIndex <= index && cachedCluster != 0 && disk.failures == old(disk.failures)
        invariant Walk(disk.image, boot, firstCluster, cachedIndex) == Some(cachedCluster)
      {
        var next := NextCluster(disk, boot, cachedCluster);
        if next.Err? {
          return Err(next.error);
        }
        if next.value.None? {
          WalkEnds(disk.image, boot, firstCluster, cachedIndex + 1, index);
          return Err(IoError);
        }
        cachedCluster := next.value.value;
        cachedIndex := cachedIndex + 1;
      }
      WalkInHeap(disk.image, boot, firstCluster, index);
      return Ok(cachedCluster);
    }

    ghost predicate Slice(at: nat, data: seq<byte>)
      requires boot.Valid() && boot.InHeap(firstCluster)
    {
      IsFileSlice(disk.image, boot, firstCluster, noFatChain, at, data)
    }

    /** The chain is long enough to hold byte `at`. */
    ghost predicate Reaches(at: nat)
      requires boot.Valid()
    {
      FileCluster(disk.image, boot, firstCluster, noFatChain, Div(at, boot.clusterSize)).Some?
    }

    /** The part of one cluster that a request starting at `at` asks for. */
    method ReadInCluster(at: nat, left: nat) returns (r: Result<seq<byte>>)
      requires Valid() && left > 0
      modifies `cachedCluster, `cachedIndex, disk
      ensures Valid()
      ensures r.Ok? <==> Reaches(at) && disk.failures == old(disk.failures)
      ensures disk.failures >= old(disk.failures)
      ensures r.Ok? ==> 0 < |r.value| <= left && Slice(at, r.value)
    {
      var clusterSize := boot.clusterSize;
      var index, inCluster := Div(at, clusterSize), Mod(at, clusterSize);
      var cluster := ClusterAt(index);
      if cluster.Err? {
        return Err(cluster.error);
      }
      var take := Min(left, clusterSize - inCluster);
      var part := ReadSectors(cluster.value, inCluster, take);
      if part.None? {
        return Err(IoError);
      }
      PartIsSlice(at, cluster.value, part.value);
      return Ok(part.value);
    }

    /** Widens a request inside one cluster to whole sectors; the sectors read
        all belong to that cluster. */
    method ReadSectors(cluster: nat, inCluster: nat, take: nat) returns (part: Option<seq<byte>>)
      requires boot.Valid() && boot.SizeMatches() && boot.InHeap(cluster) && inCluster + take <= boot.clusterSize
      modifies disk
      ensures disk.failures == old(disk.failures) + Failed(part)
      ensures part.Some? ==> |part.value| == take
      ensures part.Some? ==> boot.ClusterStart(cluster) + inCluster + take <= |disk.image|
      ensures part.Some? ==> part.value == disk.image[boot.ClusterStart(cluster) + inCluster..boot.ClusterStart(cluster) + inCluster + take]
    {
      var start := inCluster % 512;
      var sectors := (start + take + 511) / 512;
      var lba := boot.ClusterLba(cluster) + inCluster / 512;
      SectorSpan(cluster, inCluster, take);
      var tmp := disk.Read(lba, sectors * 512);
      if tmp.None? {
        return None;
      }
      SliceOfSlice(disk.image, lba * 512, lba * 512 + sectors * 512, start, start + take);
      return Some(tmp.value[start..start + take]);
    }

    /** The sectors read lie within the cluster and begin `start` bytes before
        the part asked for. */
    lemma SectorSpan(cluster: nat, inCluster: nat, take: nat)
      requires boot.Valid() && boot.SizeMatches() && boot.InHeap(cluster) && inCluster + take <= boot.clusterSize
      ensures var lba, start := boot.ClusterLba(cluster) + inCluster / 512, inCluster % 512;
        var sectors := (start + take + 511) / 512;
        && boot.ClusterStart(cluster) <= lba * 512 && lba * 512 + sectors * 512 <= boot.ClusterStart(cluster) + boot.clusterSize
        && lba * 512 + start == boot.ClusterStart(cluster) + inCluster && start + take <= sectors * 512
    {
      LbaIsStart(boot, cluster);
      RequestStaysInCluster(boot.clusterSize, inCluster, take);
    }

    lemma PartIsSlice(at: nat, cluster: nat, part: seq<byte>)
      requires boot.Valid() && boot.InHeap(firstCluster) && boot.InHeap(cluster)
      requires FileCluster(disk.image, boot, firstCluster, noFatChain, Div(at, boot.clusterSize)) == Some(cluster)
      requires Mod(at, boot.clusterSize) + |part| <= boot.clusterSize
      requires var o := boot.ClusterStart(cluster) + Mod(at, boot.clusterSize); o + |part| <= |disk.image| && part == disk.image[o..o + |part|]
      ensures Slice(at, part)
    {
      forall p | at <= p < at + |part|
        ensures FileByteAt(disk.image, boot, firstCluster, noFatChain, p) == Some(part[p - at])
      {
        SameLap(at, p - at, boot.clusterSize);
        SameQuotient(at, p - at, boot.clusterSize);
      }
    }

    lemma SliceReaches(at: nat, data: seq<byte>)
      requires boot.Valid() && boot.InHeap(firstCluster) && Slice(at, data)
      ensures forall p :: at <= p < at + |data| ==> Reaches(p)
    {
      forall p | at <= p < at + |data|
        ensures Reaches(p)
      {
        assert FileByteAt(disk.image, boot, firstCluster, noFatChain, p).Some?;
      }
    }

    method ReadAt(offset: nat, len: nat) returns (r: Result<seq<byte>>)
      requires Valid()
      modifies `cachedCluster, `cachedIndex, disk
      ensures Valid()
      ensures r.Ok? <==> (forall p :: offset <= p < offset + len ==> Reaches(p)) && disk.failures == old(disk.failures)
      ensures disk.failures >= old(disk.failures)
      ensures r.Ok? ==> |r.value| == len && Slice(offset, r.value)
    {
      var out: seq<byte> := [];
      while |out| < len
        invariant Valid() && |out| <= len && Slice(offset, out) && disk.failures == old(disk.failures)
      {
        var part := ReadInCluster(offset + |out|, len - |out|);
        if part.Err? {
          return Err(part.error);
        }
        SlicesJoin(disk.image, boot, firstCluster, noFatChain, offset, out, part.value);
        out := out + part.value;
      }
      SliceReaches(offset, out);
      return Ok(out);
    }

    /** Whatever seeks, reads and failures came before, a read returns the
        bytes at the current position and moves past them. */
    method Read(len: nat) returns (r: Result<seq<byte>>)
      requires Valid()
      modifies `position, `cachedCluster, `cachedIndex, disk
      ensures Valid()
      ensures disk.failures == old(disk.failures) && (forall p :: old(position) <= p < Min(old(position) + len, size) ==> Reaches(p)) ==> r.Ok?
      ensures disk.failures > old(disk.failures) ==> r.Err?
      ensures r.Ok? ==> Slice(old(position), r.value) && position == old(position) + |r.value|
      ensures r.Ok? ==> |r.value| == if old(position) >= size then 0 else Min(len, size - old(position))
      ensures r.Err? ==> position == old(position)
    {
      if len == 0 || position >= size {
        return Ok([]);
      }
      r := ReadAt(position, Min(len, size - position));
      if r.Ok? {
        position := position + |r.value|;
      }
    }

    method Seek(from: SeekFrom) returns (r: Result<nat>)
      requires Valid()
      modifies `position
      ensures Valid()
      ensures var target := SeekTarget(from, old(position), size);
        r == (if target < 0 then Err(InvalidPath) else Ok(target)) && position == if target < 0 then old(position) else target
      ensures from.Start? && from.offset < 0x8000_0000_0000_0000 ==> r == Ok(from.offset)
      ensures from.Start? && from.offset >= 0x8000_0000_0000_0000 ==> r == Err(InvalidPath)
      ensures from == Current(0) ==> r == Ok(old(position))
      ensures from.End? && r.Ok? ==> r.value - size == from.delta
      ensures from.Current? && r.Ok? ==> position - old(position) == from.delta
    {
      var target := SeekTarget(from, position, size);
      if target < 0 {
        return Err(InvalidPath);
      }
      position := target;
      return Ok(target);
    }
  }
}
