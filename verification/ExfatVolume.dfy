/** An exFAT volume as it is laid out: the FAT as a table of words and the heap
    as its clusters one after the other. What kernel/src/fs/exfat.rs reads of a
    file are the clusters its FAT entries name. */
module ExfatVolume {
  import opened Arith
  import opened ExfatChain
  import opened ExfatFile
  import opened Layout
  import opened Wire

  datatype Volume = Volume(boot: Boot, front: seq<byte>, fat: seq<u32>, gap: seq<byte>, clusters: seq<seq<byte>>, tail: seq<byte>) {
    /** The FAT and the heap begin where the boot sector says, and the heap has
        as many clusters as it says. */
    ghost predicate Fits() {
      && boot.Valid() && |clusters| == boot.clusterCount && Even(clusters, boot.clusterSize) && |fat| >= boot.clusterCount + 2
      && |front| == boot.fatOffset * boot.bytesPerSector
      && |front| + 4 * |fat| + |gap| == boot.heapOffset * boot.bytesPerSector
    }

    function Image(): seq<byte> {
      front + Joined(Words(fat)) + gap + Joined(clusters) + tail
    }

    /** Cluster number c; the first is number 2. */
    function Cluster(c: nat): seq<byte>
      requires 2 <= c < |clusters| + 2
    {
      clusters[c - 2]
    }
  }

  lemma FatAt(v: Volume, c: nat)
    requires v.Fits() && c < |v.fat|
    ensures FatWord(v.Image(), v.boot, c) == v.fat[c]
  {
    var table := Joined(Words(v.fat));
    JoinedLength(Words(v.fat), 4);
    BlocksTimes(|v.fat|, 4);
    PartAt(Words(v.fat), 4, c);
    BlocksTimes(c, 4);
    Middle(v.front, table, v.gap + Joined(v.clusters) + v.tail);
    Regroup4(v.front, table, v.gap, Joined(v.clusters), v.tail);
    WordIn(v.Image(), |v.front|, table, 4 * c, v.fat[c]);
  }

  lemma WordIn(image: seq<byte>, at: nat, table: seq<byte>, off: nat, w: u32)
    requires at + |table| <= |image| && image[at..at + |table|] == table && off + 4 <= |table| && table[off..off + 4] == Put32(w)
    ensures U32At(image, at + off) == w
  {
    SliceOfSlice(image, at, at + |table|, off, off + 4);
    Field32(image, at + off, w);
  }

  lemma Middle<T>(a: seq<T>, b: seq<T>, c: seq<T>)
    ensures (a + b + c)[|a|..|a| + |b|] == b
  {
  }

  lemma Regroup4<T>(a: seq<T>, b: seq<T>, c: seq<T>, d: seq<T>, e: seq<T>)
    ensures a + b + (c + d + e) == a + b + c + d + e
  {
  }

  /** The clusters fill the heap in order, from its first byte to its last. */
  lemma ClusterAtStart(v: Volume, c: nat)
    requires v.Fits() && v.boot.InHeap(c)
    ensures var at := v.boot.ClusterStart(c);
      at + v.boot.clusterSize <= |v.Image()| && v.Image()[at..at + v.boot.clusterSize] == v.Cluster(c)
    ensures v.boot.ClusterStart(c) == v.boot.heapOffset * v.boot.bytesPerSector + Blocks(c - 2, v.boot.clusterSize)
  {
    var heap, size, k := Joined(v.clusters), v.boot.clusterSize, c - 2;
    var ahead := v.front + Joined(Words(v.fat)) + v.gap;
    JoinedLength(Words(v.fat), 4);
    BlocksTimes(|v.fat|, 4);
    PartAt(v.clusters, size, k);
    BlocksTimes(k, size);
    Middle(ahead, heap, v.tail);
    SliceOfSlice(v.Image(), |ahead|, |ahead| + |heap|, Blocks(k, size), Blocks(k, size) + size);
  }

  /** These clusters are linked in the FAT in this order. */
  ghost predicate Linked(v: Volume, chain: seq<nat>) {
    && |chain| > 0 && |v.fat| >= v.boot.clusterCount + 2
    && (forall i :: 0 <= i < |chain| ==> v.boot.InHeap(chain[i]) && chain[i] < 0xFFFF_FFF7)
    && forall i :: 0 <= i < |chain| - 1 ==> v.fat[chain[i]] == chain[i + 1]
  }

  lemma {:induction false} LinkedWalk(v: Volume, chain: seq<nat>, i: nat)
    requires v.Fits() && Linked(v, chain) && i < |chain|
    ensures Walk(v.Image(), v.boot, chain[0], i) == Some(chain[i])
  {
    if i > 0 {
      LinkedWalk(v, chain, i - 1);
      FatAt(v, chain[i - 1]);
      assert v.fat[chain[i - 1]] == chain[i - 1 + 1];
    }
  }

  /** A chain whose last entry is an end mark, free or out of the heap. */
  lemma {:induction false} ChainOver(v: Volume, chain: seq<nat>, i: nat)
    requires v.Fits() && Linked(v, chain) && i >= |chain|
    requires var last := v.fat[chain[|chain| - 1]]; last >= 0xFFFF_FFF7 || last < 2 || last >= v.boot.clusterCount + 2
    ensures Walk(v.Image(), v.boot, chain[0], i) == None
  {
    var n := |chain|;
    LinkedWalk(v, chain, n - 1);
    FatAt(v, chain[n - 1]);
    WalkEnds(v.Image(), v.boot, chain[0], n, i);
  }

  /** The clusters with these numbers. */
  function Picked(v: Volume, chain: seq<nat>): (parts: seq<seq<byte>>)
    requires forall i :: 0 <= i < |chain| ==> 2 <= chain[i] < |v.clusters| + 2
    ensures |parts| == |chain| && forall i :: 0 <= i < |chain| ==> parts[i] == v.Cluster(chain[i])
  {
    seq(|chain|, i requires 0 <= i < |chain| => v.Cluster(chain[i]))
  }

  /** What a file of these clusters holds. */
  function Content(v: Volume, chain: seq<nat>): seq<byte>
    requires forall i :: 0 <= i < |chain| ==> 2 <= chain[i] < |v.clusters| + 2
  {
    Joined(Picked(v, chain))
  }

  /** The number of consecutive clusters from `first` on. */
  function Run(first: nat, n: nat): (chain: seq<nat>)
    ensures |chain| == n && forall i :: 0 <= i < n ==> chain[i] == first + i
  {
    seq(n, i => first + i)
  }

  /** The chain of a file: linked, or a run of clusters without a chain. */
  ghost predicate IsChain(v: Volume, chain: seq<nat>, noFatChain: bool) {
    if noFatChain then |chain| > 0 && chain == Run(chain[0], |chain|) && chain[0] >= 2 && chain[0] + |chain| <= v.boot.clusterCount + 2
    else Linked(v, chain)
  }

  lemma ChainInHeap(v: Volume, chain: seq<nat>, noFatChain: bool, i: nat)
    requires v.Fits() && IsChain(v, chain, noFatChain) && i < |chain|
    ensures v.boot.InHeap(chain[i]) && FileCluster(v.Image(), v.boot, chain[0], noFatChain, i) == Some(chain[i])
  {
    if !noFatChain { LinkedWalk(v, chain, i); }
  }

  lemma AllInHeap(v: Volume, chain: seq<nat>, noFatChain: bool)
    requires v.Fits() && IsChain(v, chain, noFatChain)
    ensures v.boot.InHeap(chain[0]) && forall i :: 0 <= i < |chain| ==> 2 <= chain[i] < |v.clusters| + 2
  {
    forall i | 0 <= i < |chain| ensures v.boot.InHeap(chain[i]) { ChainInHeap(v, chain, noFatChain, i); }
  }

  /** Where byte `at` of a file is. */
  lemma OffsetOf(image: seq<byte>, boot: Boot, first: nat, noFatChain: bool, at: nat, c: nat, start: nat)
    requires boot.Valid() && boot.InHeap(first) && boot.InHeap(c) && start == boot.ClusterStart(c)
    requires FileCluster(image, boot, first, noFatChain, Div(at, boot.clusterSize)) == Some(c)
    ensures FileOffset(image, boot, first, noFatChain, at) == Some(start + Mod(at, boot.clusterSize))
  {
  }

  lemma ByteAtOffset(image: seq<byte>, boot: Boot, first: nat, noFatChain: bool, at: nat, o: nat)
    requires boot.Valid() && boot.InHeap(first) && FileOffset(image, boot, first, noFatChain, at) == Some(o) && o < |image|
    ensures FileByteAt(image, boot, first, noFatChain, at) == Some(image[o])
  {
  }

  /** Byte j of cluster k of a file. */
  lemma ClusterByte(v: Volume, chain: seq<nat>, noFatChain: bool, at: nat, k: nat, j: nat)
    requires v.Fits() && IsChain(v, chain, noFatChain) && k < |chain| && v.boot.InHeap(chain[0]) && v.boot.InHeap(chain[k])
    requires k == Div(at, v.boot.clusterSize) && j == Mod(at, v.boot.clusterSize) && j < v.boot.clusterSize
    ensures FileByteAt(v.Image(), v.boot, chain[0], noFatChain, at) == Some(v.Cluster(chain[k])[j])
  {
    var start := v.boot.ClusterStart(chain[k]);
    ChainInHeap(v, chain, noFatChain, k);
    ClusterAtStart(v, chain[k]);
    OffsetOf(v.Image(), v.boot, chain[0], noFatChain, at, chain[k], start);
    ByteOfPart(v.Image(), start, v.Cluster(chain[k]), j);
    ByteAtOffset(v.Image(), v.boot, chain[0], noFatChain, at, start + j);
  }

  /** Byte `at` of a file is byte `at` of its clusters put together. */
  lemma FileBytes(v: Volume, chain: seq<nat>, noFatChain: bool, at: nat)
    requires v.Fits() && IsChain(v, chain, noFatChain) && at < Blocks(|chain|, v.boot.clusterSize)
    requires v.boot.InHeap(chain[0]) && forall i :: 0 <= i < |chain| ==> 2 <= chain[i] < |v.clusters| + 2
    ensures at < |Content(v, chain)| && FileByteAt(v.Image(), v.boot, chain[0], noFatChain, at) == Some(Content(v, chain)[at])
  {
    var size := v.boot.clusterSize;
    var k, j := WhichCluster(at, |chain|, size);
    ContentByte(v, chain, at, k, j);
    ClusterByte(v, chain, noFatChain, at, k, j);
  }

  lemma ContentByte(v: Volume, chain: seq<nat>, at: nat, k: nat, j: nat)
    requires v.Fits() && forall i :: 0 <= i < |chain| ==> 2 <= chain[i] < |v.clusters| + 2
    requires k < |chain| && j < v.boot.clusterSize && at == Blocks(k, v.boot.clusterSize) + j
    ensures at < |Content(v, chain)| && Content(v, chain)[at] == v.Cluster(chain[k])[j]
  {
    PickedEven(v, chain);
    PartAt(Picked(v, chain), v.boot.clusterSize, k);
    ByteOfPart(Content(v, chain), Blocks(k, v.boot.clusterSize), v.Cluster(chain[k]), j);
  }

  lemma PickedEven(v: Volume, chain: seq<nat>)
    requires v.Fits() && forall i :: 0 <= i < |chain| ==> 2 <= chain[i] < |v.clusters| + 2
    ensures Even(Picked(v, chain), v.boot.clusterSize)
  {
  }

  lemma ByteOfPart(s: seq<byte>, at: nat, part: seq<byte>, j: nat)
    requires at + |part| <= |s| && s[at..at + |part|] == part && j < |part|
    ensures s[at + j] == part[j]
  {
  }

  lemma WhichCluster(at: nat, n: nat, size: nat) returns (k: nat, j: nat)
    requires size > 0 && at < Blocks(n, size)
    ensures k == Div(at, size) && j == Mod(at, size) && k < n && j < size && at == Blocks(k, size) + j
  {
    k, j := Div(at, size), Mod(at, size);
    BlocksTimes(n, size);
    BlocksTimes(k, size);
    QuotientBelow(at, n, size);
    DivFloor(at, size);
  }

  /** So whatever a read of the file returns is that part of its clusters. */
  lemma FileSlice(v: Volume, chain: seq<nat>, noFatChain: bool, at: nat, data: seq<byte>)
    requires v.Fits() && IsChain(v, chain, noFatChain) && v.boot.InHeap(chain[0])
    requires forall i :: 0 <= i < |chain| ==> 2 <= chain[i] < |v.clusters| + 2
    requires IsFileSlice(v.Image(), v.boot, chain[0], noFatChain, at, data) && at + |data| <= |Content(v, chain)|
    ensures data == Content(v, chain)[at..at + |data|]
  {
    PickedEven(v, chain);
    JoinedLength(Picked(v, chain), v.boot.clusterSize);
    forall p | at <= p < at + |data| ensures data[p - at] == Content(v, chain)[p] {
      FileBytes(v, chain, noFatChain, p);
    }
    assert forall k :: 0 <= k < |data| ==> data[k] == Content(v, chain)[at + k];
  }
}
