/** What the exFAT encoder writes, the parser reads back. */
module ExfatRoundTrip {
  import opened ExfatChain
  import opened ExfatDirectory
  import opened Utf16
  import opened Wire

  predicate NonZero(units: seq<u16>) {
    forall k :: 0 <= k < |units| ==> units[k] != 0
  }

  lemma {:induction false} UnitBytesAt(units: seq<u16>, j: nat)
    requires j < |units|
    ensures Le16(UnitBytes(units), 2 * j) == units[j]
  {
    if j < |units| - 1 {
      UnitBytesAt(units[..|units| - 1], j);
    }
  }

  lemma NameEntryUnit(units: seq<u16>, j: nat)
    requires |units| <= UNITS_PER_ENTRY && j < UNITS_PER_ENTRY
    ensures Le16(NameEntry(units), 2 + j * 2) == if j < |units| then units[j] else 0
  {
    if j < |units| {
      UnitBytesAt(units, j);
    }
  }

  lemma {:induction false} NameEntryUnits(units: seq<u16>, k: nat)
    requires |units| <= UNITS_PER_ENTRY && k <= UNITS_PER_ENTRY && NonZero(units)
    ensures NameUnits(NameEntry(units), k) == units[..Min(k, |units|)]
  {
    if k > 0 {
      NameEntryUnits(units, k - 1);
      NameEntryUnit(units, k - 1);
    }
  }

  lemma {:induction false} NameEntriesAt(units: seq<u16>, n: nat, m: nat)
    requires m < n <= EntriesFor(|units|)
    ensures EntryAt(NameEntries(units, n), m) == NameEntry(ChunkOf(units, m))
  {
    if m < n - 1 {
      NameEntriesAt(units, n - 1, m);
      assert NameEntries(units, n)[..ENTRY * (n - 1)] == NameEntries(units, n - 1);
      assert EntryAt(NameEntries(units, n), m) == EntryAt(NameEntries(units, n)[..ENTRY * (n - 1)], m);
    }
  }

  /** What the parser reads from a File entry and from a Stream entry. */
  predicate FileSays(b: seq<byte>, e: EntryInfo, n: nat) {
    |b| == ENTRY && b[0] == 0x85 && b[1] == 1 + n && Flag(Le16(b, 4), 0x10) == e.isDir
  }

  predicate StreamSays(b: seq<byte>, e: EntryInfo, nameLen: nat) {
    && |b| == ENTRY && b[0] == 0xC0 && Flag(b[1], 0x02) == e.noFatChain && b[3] == nameLen
    && Le32(b, 20) == e.firstCluster && Le64(b, 24) == e.size
  }

  lemma FileFields(e: EntryInfo, n: nat)
    requires n < 0xFF
    ensures FileSays(FileEntry(e, 1 + n), e, n)
  {
    assert Le16(FileEntry(e, 1 + n), 4) == Le16(Put16(if e.isDir then 0x10 else 0x20), 0);
  }

  lemma StreamFields(e: EntryInfo, nameLen: nat)
    requires nameLen < 0x100
    ensures StreamSays(StreamEntry(e, nameLen), e, nameLen)
  {
  }

  /** The first m File Name entries of `units` stand behind the File and
      Stream entries. */
  predicate HasNames(d: seq<byte>, units: seq<u16>, m: nat)
    requires m <= EntriesFor(|units|)
  {
    && ENTRY * (2 + m) <= |d|
    && forall k :: 0 <= k < m ==> EntryAt(d, 2 + k) == NameEntry(ChunkOf(units, k))
  }

  /** Where the entries of a set lie. */
  lemma Layout(file: seq<byte>, stream: seq<byte>, names: seq<byte>, rest: seq<byte>, n: nat)
    requires |file| == ENTRY && |stream| == ENTRY && |names| == ENTRY * n
    ensures var d := file + stream + names + rest;
      && EntryAt(d, 0) == file && EntryAt(d, 1) == stream
      && forall m :: 0 <= m < n ==> EntryAt(d, 2 + m) == EntryAt(names, m)
  {
    var d := file + stream + names + rest;
    assert d[2 * ENTRY..2 * ENTRY + |names|] == names;
    forall m | 0 <= m < n
      ensures EntryAt(d, 2 + m) == EntryAt(names, m)
    {
      assert EntryAt(d, 2 + m) == EntryAt(d[2 * ENTRY..2 * ENTRY + |names|], m);
    }
  }

  lemma NamesInPlace(d: seq<byte>, units: seq<u16>)
    requires ENTRY * (2 + EntriesFor(|units|)) <= |d|
    requires forall m :: 0 <= m < EntriesFor(|units|) ==> EntryAt(d, 2 + m) == EntryAt(NameEntries(units, EntriesFor(|units|)), m)
    ensures HasNames(d, units, EntriesFor(|units|))
  {
    forall m | 0 <= m < EntriesFor(|units|)
      ensures EntryAt(d, 2 + m) == NameEntry(ChunkOf(units, m))
    {
      NameEntriesAt(units, EntriesFor(|units|), m);
    }
  }

  lemma CollectStream(d: seq<byte>, e: EntryInfo, nameLen: nat)
    requires |d| >= 2 * ENTRY && StreamSays(EntryAt(d, 1), e, nameLen)
    ensures Collect(d, 1) == Collected(e.firstCluster, e.size, e.noFatChain, nameLen, [])
  {
    assert Collect(d, 0) == Nothing;
  }

  lemma CollectName(d: seq<byte>, m: nat, chunk: seq<u16>)
    requires |chunk| <= UNITS_PER_ENTRY && NonZero(chunk)
    requires ENTRY * (2 + m) + ENTRY <= |d| && EntryAt(d, 2 + m) == NameEntry(chunk)
    ensures Collect(d, 2 + m) == Collect(d, 1 + m).(units := Collect(d, 1 + m).units + chunk)
  {
    NameEntryUnits(chunk, Slots(NameEntry(chunk)));
    assert chunk[..|chunk|] == chunk;
  }

  /** Chunks appended one after another give the whole. */
  lemma {:induction false} Accumulate(cs: seq<Collected>, units: seq<u16>, m: nat)
    requires m < |cs| && m <= EntriesFor(|units|) && cs[0].units == []
    requires forall k :: 0 <= k < m ==> cs[k + 1] == cs[k].(units := cs[k].units + ChunkOf(units, k))
    ensures cs[m] == cs[0].(units := units[..Min(UNITS_PER_ENTRY * m, |units|)])
  {
    if m > 0 {
      Accumulate(cs, units, m - 1);
      assert units[..UNITS_PER_ENTRY * (m - 1)] + ChunkOf(units, m - 1) == units[..Min(UNITS_PER_ENTRY * m, |units|)];
    }
  }

  lemma ChunkNonZero(units: seq<u16>, k: nat)
    requires NonZero(units) && k < EntriesFor(|units|)
    ensures NonZero(ChunkOf(units, k)) && |ChunkOf(units, k)| <= UNITS_PER_ENTRY
  {
  }

  lemma CollectStep(d: seq<byte>, units: seq<u16>, n: nat, k: nat)
    requires NonZero(units) && n == EntriesFor(|units|) && HasNames(d, units, n) && k < n
    ensures Collect(d, 2 + k) == Collect(d, 1 + k).(units := Collect(d, 1 + k).units + ChunkOf(units, k))
  {
    ChunkNonZero(units, k);
    CollectName(d, k, ChunkOf(units, k));
  }

  /** What has been collected after each of the first n name entries. */
  lemma {:induction false} CollectSteps(d: seq<byte>, units: seq<u16>, n: nat) returns (cs: seq<Collected>)
    requires NonZero(units) && HasNames(d, units, EntriesFor(|units|)) && n <= EntriesFor(|units|)
    ensures |cs| == n + 1 && cs[0] == Collect(d, 1) && cs[n] == Collect(d, 1 + n)
    ensures forall k :: 0 <= k < n ==> cs[k + 1] == cs[k].(units := cs[k].units + ChunkOf(units, k))
  {
    cs := [Collect(d, 1)];
    if n > 0 {
      cs := CollectSteps(d, units, n - 1);
      CollectStep(d, units, EntriesFor(|units|), n - 1);
      cs := cs + [Collect(d, 1 + n)];
    }
  }

  /** The name entries of a set give back the units of the name. */
  lemma CollectNames(d: seq<byte>, units: seq<u16>)
    requires NonZero(units) && HasNames(d, units, EntriesFor(|units|)) && Collect(d, 1).units == []
    ensures Collect(d, 1 + EntriesFor(|units|)) == Collect(d, 1).(units := units)
  {
    var cs := CollectSteps(d, units, EntriesFor(|units|));
    Accumulate(cs, units, EntriesFor(|units|));
    assert units[..|units|] == units;
  }

  lemma FirstEntry(d: seq<byte>)
    requires |d| >= ENTRY
    ensures d[0] == EntryAt(d, 0)[0] && d[1] == EntryAt(d, 0)[1] && Le16(d, 4) == Le16(EntryAt(d, 0), 4)
  {
    assert forall k :: 0 <= k < ENTRY ==> d[k] == EntryAt(d, 0)[k];
  }

  lemma InfoIs(d: seq<byte>, e: EntryInfo, units: seq<u16>)
    requires |d| >= ENTRY && Decode(units) == e.name && Flag(Le16(d, 4), 0x10) == e.isDir
    ensures Info(d, Collected(e.firstCluster, e.size, e.noFatChain, |units|, units)) == e
  {
    assert units[..|units|] == units;
  }

  lemma ParsedParts(d: seq<byte>, units: seq<u16>, e: EntryInfo, clusterCount: nat)
    requires NonZero(units) && 1 <= |units| <= 255 && Decode(units) == e.name != ""
    requires HasNames(d, units, EntriesFor(|units|))
    requires FileSays(EntryAt(d, 0), e, EntriesFor(|units|)) && StreamSays(EntryAt(d, 1), e, |units|)
    requires ClusterOk(e.firstCluster, clusterCount)
    ensures d[0] == 0x85 && SetLength(d) == ENTRY * (2 + EntriesFor(|units|)) && ParseSet(d, clusterCount) == [e]
  {
    CollectStream(d, e, |units|);
    CollectNames(d, units);
    FirstEntry(d);
    InfoIs(d, e, units);
  }

  /** The entries of a written set say what they were written from. */
  lemma SetInPlace(e: EntryInfo, rest: seq<byte>)
    requires Encodable(e)
    ensures var units, d := Encode(e.name), EntrySet(e) + rest;
      var n := EntriesFor(|units|);
      && HasNames(d, units, n) && FileSays(EntryAt(d, 0), e, n) && StreamSays(EntryAt(d, 1), e, |units|)
  {
    var units := Encode(e.name);
    var n := EntriesFor(|units|);
    HeadsInPlace(e, rest);
    NamesInPlace(EntrySet(e) + rest, units);
    FileFields(e, n);
    StreamFields(e, |units|);
  }

  lemma HeadsInPlace(e: EntryInfo, rest: seq<byte>)
    requires Encodable(e)
    ensures var units, d := Encode(e.name), EntrySet(e) + rest;
      var n := EntriesFor(|units|);
      && |d| >= ENTRY * (2 + n) && EntryAt(d, 0) == FileEntry(e, 1 + n) && EntryAt(d, 1) == StreamEntry(e, |units|)
      && forall m :: 0 <= m < n ==> EntryAt(d, 2 + m) == EntryAt(NameEntries(units, n), m)
  {
    var units := Encode(e.name);
    var n := EntriesFor(|units|);
    Layout(FileEntry(e, 1 + n), StreamEntry(e, |units|), NameEntries(units, n), rest, n);
  }

  lemma ParseFirst(d: seq<byte>, clusterCount: nat, front: seq<byte>, rest: seq<byte>, e: EntryInfo)
    requires d == front + rest && |front| >= ENTRY && d[0] == 0x85 && SetLength(d) == |front| && ParseSet(d, clusterCount) == [e]
    ensures Parse(d, clusterCount) == [e] + Parse(rest, clusterCount)
  {
    assert d[|front|..] == rest;
  }

  /** One set comes back as the entry it was made from. */
  lemma SetRoundTrip(e: EntryInfo, rest: seq<byte>, clusterCount: nat)
    requires Encodable(e) && ClusterOk(e.firstCluster, clusterCount)
    ensures Parse(EntrySet(e) + rest, clusterCount) == [e] + Parse(rest, clusterCount)
  {
    var d := EntrySet(e) + rest;
    SetInPlace(e, rest);
    DecodeEncode(e.name);
    EncodeNonEmpty(e.name);
    ParsedParts(d, Encode(e.name), e, clusterCount);
    ParseFirst(d, clusterCount, EntrySet(e), rest, e);
  }

  /** A record whose type is neither 0 nor 85h, such as a volume label. */
  predicate OtherEntry(b: seq<byte>) {
    |b| == ENTRY && b[0] != 0 && b[0] != 0x85
  }

  /** A directory written by the encoder, after any other records and before
      any number of zero bytes, lists exactly its entries in order. */
  lemma {:induction false} DirectoryRoundTrip(entries: seq<EntryInfo>, zeros: nat, clusterCount: nat)
    requires forall k :: 0 <= k < |entries| ==> Encodable(entries[k]) && ClusterOk(entries[k].firstCluster, clusterCount)
    ensures Parse(EncodeAll(entries) + Zeros(zeros), clusterCount) == entries
  {
    if entries == [] {
      NothingListed(zeros, clusterCount);
    } else {
      var e, tail := entries[0], entries[1..];
      DirectoryRoundTrip(tail, zeros, clusterCount);
      SetRoundTrip(e, EncodeAll(tail) + Zeros(zeros), clusterCount);
      Regroup(EntrySet(e), EncodeAll(tail), Zeros(zeros));
      assert entries == [e] + tail;
    }
  }

  lemma NothingListed(zeros: nat, clusterCount: nat)
    ensures Parse([] + Zeros(zeros), clusterCount) == []
  {
    var d := [] + Zeros(zeros);
    assert zeros > 0 ==> d[0] == 0;
  }

  lemma LabelSkipped(other: seq<byte>, d: seq<byte>, clusterCount: nat)
    requires OtherEntry(other)
    ensures Parse(other + d, clusterCount) == Parse(d, clusterCount)
  {
    assert (other + d)[ENTRY..] == d;
  }

  /** The same after any other record, or none. */
  lemma DirectoryParsed(other: seq<byte>, entries: seq<EntryInfo>, zeros: nat, clusterCount: nat)
    requires other == [] || OtherEntry(other)
    requires forall k :: 0 <= k < |entries| ==> Encodable(entries[k]) && ClusterOk(entries[k].firstCluster, clusterCount)
    ensures Parse(other + (EncodeAll(entries) + Zeros(zeros)), clusterCount) == entries
  {
    DirectoryRoundTrip(entries, zeros, clusterCount);
    ParsedBehind(other, EncodeAll(entries) + Zeros(zeros), clusterCount, entries);
  }

  lemma ParsedBehind(other: seq<byte>, d: seq<byte>, clusterCount: nat, entries: seq<EntryInfo>)
    requires (other == [] || OtherEntry(other)) && Parse(d, clusterCount) == entries
    ensures Parse(other + d, clusterCount) == entries
  {
    if other == [] {
      assert other + d == d;
    } else {
      LabelSkipped(other, d, clusterCount);
    }
  }

  /** Building a directory entry by entry and listing it. */
  method WriteAndList(other: seq<byte>, entries: seq<EntryInfo>, zeros: nat, clusterCount: nat) returns (d: seq<byte>, listed: seq<EntryInfo>)
    requires other == [] || OtherEntry(other)
    requires forall k :: 0 <= k < |entries| ==> Encodable(entries[k]) && ClusterOk(entries[k].firstCluster, clusterCount)
    ensures d == other + (EncodeAll(entries) + Zeros(zeros)) && listed == entries
  {
    d := BuildDirectory(other, entries, zeros);
    DirectoryParsed(other, entries, zeros, clusterCount);
    listed := ListEntries(d, clusterCount);
  }

  method BuildDirectory(other: seq<byte>, entries: seq<EntryInfo>, zeros: nat) returns (d: seq<byte>)
    requires forall k :: 0 <= k < |entries| ==> Encodable(entries[k])
    ensures d == other + (EncodeAll(entries) + Zeros(zeros))
  {
    var sets := BuildAll(entries);
    d := other + (sets + Zeros(zeros));
  }

  method BuildAll(entries: seq<EntryInfo>) returns (d: seq<byte>)
    requires forall k :: 0 <= k < |entries| ==> Encodable(entries[k])
    ensures d == EncodeAll(entries)
  {
    d := [];
    for k := 0 to |entries|
      invariant d + EncodeAll(entries[k..]) == EncodeAll(entries)
    {
      var b := BuildEntrySet(entries[k]);
      EncodeAllStep(entries, k, d);
      d := d + b;
    }
  }

  lemma EncodeAllStep(entries: seq<EntryInfo>, k: nat, d: seq<byte>)
    requires k < |entries| && forall i :: 0 <= i < |entries| ==> Encodable(entries[i])
    ensures d + EncodeAll(entries[k..]) == d + EntrySet(entries[k]) + EncodeAll(entries[k + 1..])
  {
    assert entries[k..][1..] == entries[k + 1..];
    Regroup(d, EntrySet(entries[k]), EncodeAll(entries[k + 1..]));
  }

}
