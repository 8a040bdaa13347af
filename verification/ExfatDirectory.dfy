/** exFAT directories: the encoder of scripts/mk-exfat-fixture.py and the
    parser of kernel/src/fs/exfat.rs, and the round trip between them. An
    entry set is a File entry (85h), a Stream Extension (C0h) and File Name
    entries (C1h) of 15 units each; see sections 7.4, 7.6 and 7.7 of the
    exFAT specification. */
module ExfatDirectory {
  import opened ExfatChain
  import opened Utf16
  import opened Wire

  const ENTRY: nat := 32
  const UNITS_PER_ENTRY: nat := 15

  datatype EntryInfo = EntryInfo(name: string, isDir: bool, firstCluster: u32, size: u64, noFatChain: bool)

  // ----- parser -----

  /** What the secondary entries of a set have told so far. */
  datatype Collected = Collected(firstCluster: u32, size: u64, noFatChain: bool, nameLen: nat, units: seq<u16>)

  const Nothing: Collected := Collected(0, 0, false, 0, [])

  /** The unit slots of a File Name entry: 15. */
  function Slots(sec: seq<byte>): nat
    requires |sec| == ENTRY
  {
    (|sec| - 2) / 2
  }

  /** The non-zero units among the first `k` of a File Name entry. */
  function NameUnits(sec: seq<byte>, k: nat): seq<u16>
    requires |sec| == ENTRY && k <= Slots(sec)
  {
    if k == 0 then []
    else
      var u := Le16(sec, 2 + (k - 1) * 2);
      NameUnits(sec, k - 1) + if u != 0 then [u] else []
  }

  function Secondary(c: Collected, sec: seq<byte>): Collected
    requires |sec| == ENTRY
  {
    if sec[0] == 0xC0 then
      c.(noFatChain := Flag(sec[1], 0x02), nameLen := sec[3], firstCluster := Le32(sec, 20), size := Le64(sec, 24))
    else if sec[0] == 0xC1 then
      c.(units := c.units + NameUnits(sec, Slots(sec)))
    else c
  }

  /** The k-th 32-byte entry of a directory. */
  function EntryAt(d: seq<byte>, k: nat): (e: seq<byte>)
    requires ENTRY * k + ENTRY <= |d|
    ensures |e| == ENTRY
  {
    d[ENTRY * k..ENTRY * k + ENTRY]
  }

  /** What one secondary entry adds. */
  type Absorber = (Collected, seq<byte>) -> Collected

  function Absorbing(): Absorber {
    (c: Collected, sec: seq<byte>) => if |sec| == ENTRY then Secondary(c, sec) else c
  }

  /** The first n secondary entries of the set at the start of `d`; those
      beyond the data are ignored. */
  function CollectWith(d: seq<byte>, n: nat, absorb: Absorber): Collected {
    if n == 0 then Nothing
    else if ENTRY * n + ENTRY > |d| then CollectWith(d, n - 1, absorb)
    else absorb(CollectWith(d, n - 1, absorb), EntryAt(d, n))
  }

  function Collect(d: seq<byte>, n: nat): Collected {
    CollectWith(d, n, Absorbing())
  }

  function Info(d: seq<byte>, c: Collected): EntryInfo
    requires |d| >= ENTRY
  {
    EntryInfo(Decode(c.units[..Min(c.nameLen, |c.units|)]), Flag(Le16(d, 4), 0x10), c.firstCluster, c.size, c.noFatChain)
  }

  /** The entry of the set at the start of `d`, unless its cluster is out of
      range or its name is empty. */
  function ParseSet(d: seq<byte>, clusterCount: nat): seq<EntryInfo>
    requires |d| >= ENTRY
  {
    var c := Collect(d, d[1]);
    var info := Info(d, c);
    if ClusterOk(c.firstCluster, clusterCount) && info.name != "" then [info] else []
  }

  function SetLength(d: seq<byte>): nat
    requires |d| >= ENTRY
  {
    ENTRY * (1 + d[1] as int)
  }

  /** What is made of the set at the start of the data. */
  type SetReader = seq<byte> -> seq<EntryInfo>

  function ReadingSets(clusterCount: nat): SetReader {
    (d: seq<byte>) => if |d| >= ENTRY then ParseSet(d, clusterCount) else []
  }

  /** The entries a directory lists: a zero type ends it, other types than 85h
      are skipped, a set is taken whole. */
  function ParseWith(d: seq<byte>, read: SetReader): seq<EntryInfo> {
    if |d| < ENTRY || d[0] == 0 then []
    else if d[0] != 0x85 then ParseWith(d[ENTRY..], read)
    else read(d) + if SetLength(d) <= |d| then ParseWith(d[SetLength(d)..], read) else []
  }

  function Parse(d: seq<byte>, clusterCount: nat): seq<EntryInfo> {
    ParseWith(d, ReadingSets(clusterCount))
  }

  method CollectUnits(sec: seq<byte>) returns (units: seq<u16>)
    requires |sec| == ENTRY
    ensures units == NameUnits(sec, Slots(sec))
  {
    units := [];
    for k := 0 to UNITS_PER_ENTRY
      invariant units == NameUnits(sec, k)
    {
      var u := Le16(sec, 2 + k * 2);
      if u != 0 {
        units := units + [u];
      }
    }
  }

  /** One secondary entry, with the loop that reads its units. */
  method Absorb(c: Collected, sec: seq<byte>) returns (c': Collected)
    requires |sec| == ENTRY
    ensures c' == Secondary(c, sec)
  {
    if sec[0] == 0xC0 {
      c' := c.(noFatChain := Flag(sec[1], 0x02), nameLen := sec[3], firstCluster := Le32(sec, 20), size := Le64(sec, 24));
    } else if sec[0] == 0xC1 {
      var units := CollectUnits(sec);
      c' := c.(units := c.units + units);
    } else {
      c' := c;
    }
  }

  method CollectSet(data: seq<byte>, i: nat) returns (c: Collected)
    requires i + ENTRY <= |data|
    ensures c == Collect(data[i..], data[i + 1])
  {
    c := CollectFrom(data[i..], data[i + 1], Absorbing());
  }

  /** One turn of the loop over the secondary entries. */
  method CollectNext(c: Collected, d: seq<byte>, j: nat, ghost absorb: Absorber) returns (c': Collected)
    requires j > 0 && j * ENTRY + ENTRY <= |d| && c == CollectWith(d, j - 1, absorb) && absorb == Absorbing()
    ensures c' == CollectWith(d, j, absorb)
  {
    var off := j * ENTRY;
    c' := Absorb(c, d[off..off + ENTRY]);
  }

  /** The loop over the secondary entries of the set at the start of `d`. */
  method CollectFrom(d: seq<byte>, secondary: byte, ghost absorb: Absorber) returns (c: Collected)
    requires absorb == Absorbing()
    ensures c == CollectWith(d, secondary, absorb)
  {
    c := Nothing;
    var j := 1;
    while j <= secondary && j * ENTRY + ENTRY <= |d|
      invariant 1 <= j <= secondary + 1 && c == CollectWith(d, j - 1, absorb)
    {
      c := CollectNext(c, d, j, absorb);
      j := j + 1;
    }
    if j <= secondary {
      CollectPastEnd(d, j - 1, secondary, absorb);
    }
  }

  lemma {:induction false} CollectPastEnd(d: seq<byte>, m: nat, n: nat, absorb: Absorber)
    requires m <= n && (m < n ==> ENTRY * (m + 1) + ENTRY > |d|)
    ensures CollectWith(d, n, absorb) == CollectWith(d, m, absorb)
  {
    if m < n {
      CollectPastEnd(d, m, n - 1, absorb);
    }
  }

  /** What the directory lists from byte i on. */
  function ParseAt(data: seq<byte>, i: nat, read: SetReader): seq<EntryInfo> {
    if i <= |data| then ParseWith(data[i..], read) else []
  }

  lemma SkipEntry(data: seq<byte>, i: nat, read: SetReader)
    requires i + ENTRY <= |data| && data[i] != 0 && data[i] != 0x85
    ensures ParseAt(data, i, read) == ParseAt(data, i + ENTRY, read)
  {
    assert data[i..][ENTRY..] == data[i + ENTRY..];
  }

  lemma SetAt(data: seq<byte>, i: nat, read: SetReader)
    requires i + ENTRY <= |data| && data[i] == 0x85
    ensures ParseAt(data, i, read) == read(data[i..]) + ParseAt(data, i + SetLength(data[i..]), read)
  {
    var step := SetLength(data[i..]);
    if i + step <= |data| {
      assert data[i..][step..] == data[i + step..];
    }
  }

  lemma EndAt(data: seq<byte>, i: nat, read: SetReader)
    requires i + ENTRY > |data| || data[i] == 0
    ensures ParseAt(data, i, read) == []
  {
  }

  lemma ParseAtStart(data: seq<byte>, read: SetReader)
    ensures ParseAt(data, 0, read) == ParseWith(data, read)
  {
    assert data[0..] == data;
  }

  method ListSet(data: seq<byte>, i: nat, clusterCount: nat) returns (listed: seq<EntryInfo>)
    requires i + ENTRY <= |data|
    ensures listed == ReadingSets(clusterCount)(data[i..])
  {
    var c := CollectSet(data, i);
    if c.firstCluster < 2 || c.firstCluster >= clusterCount + 2 {
      return [];
    }
    var name := ToString(c.units, c.nameLen);
    if name == "" {
      return [];
    }
    return [EntryInfo(name, Flag(Le16(data, i + 4), 0x10), c.firstCluster, c.size, c.noFatChain)];
  }

  /** One turn of the loop: what entry i contributes and where it ends. */
  method ListAt(data: seq<byte>, i: nat, clusterCount: nat, ghost read: SetReader) returns (listed: seq<EntryInfo>, next: nat)
    requires i + ENTRY <= |data| && data[i] != 0 && read == ReadingSets(clusterCount)
    ensures next >= i + ENTRY
    ensures ParseAt(data, i, read) == listed + ParseAt(data, next, read)
  {
    var etype := data[i];
    if etype < 0x80 || etype != 0x85 {
      SkipEntry(data, i, read);
      Regroup([], [], ParseAt(data, i + ENTRY, read));
      return [], i + ENTRY;
    }
    SetAt(data, i, read);
    listed := ListSet(data, i, clusterCount);
    next := i + ENTRY * (1 + data[i + 1] as int);
  }

  method ListEntries(data: seq<byte>, clusterCount: nat) returns (out: seq<EntryInfo>)
    ensures out == Parse(data, clusterCount)
  {
    out := ListAll(data, clusterCount, ReadingSets(clusterCount));
  }

  method ListAll(data: seq<byte>, clusterCount: nat, ghost read: SetReader) returns (out: seq<EntryInfo>)
    requires read == ReadingSets(clusterCount)
    ensures out == ParseWith(data, read)
  {
    out := [];
    var i := 0;
    ParseAtStart(data, read);
    while i + ENTRY <= |data| && data[i] != 0
      invariant out + ParseAt(data, i, read) == ParseWith(data, read)
      decreases |data| - i
    {
      var listed, next := ListAt(data, i, clusterCount, read);
      Regroup(out, listed, ParseAt(data, next, read));
      out := out + listed;
      i := next;
    }
    EndAt(data, i, read);
    Regroup(out, [], []);
  }

  // ----- encoder -----

  function Zeros(n: nat): (z: seq<byte>)
    ensures |z| == n && forall k :: 0 <= k < n ==> z[k] == 0
  {
    seq(n, _ => 0)
  }

  function UnitBytes(units: seq<u16>): (b: seq<byte>)
    ensures |b| == 2 * |units|
  {
    if units == [] then [] else UnitBytes(units[..|units| - 1]) + Put16(units[|units| - 1])
  }

  /** One File Name entry. */
  function NameEntry(units: seq<u16>): (e: seq<byte>)
    requires |units| <= UNITS_PER_ENTRY
    ensures |e| == ENTRY
  {
    [0xC1, 0] + UnitBytes(units) + Zeros(30 - 2 * |units|)
  }

  function EntriesFor(n: nat): nat {
    (n + UNITS_PER_ENTRY - 1) / UNITS_PER_ENTRY
  }

  /** Entry m of a name holds units 15m to 15m + 14. */
  function ChunkOf(units: seq<u16>, m: nat): seq<u16>
    requires m < EntriesFor(|units|)
  {
    units[UNITS_PER_ENTRY * m..Min(UNITS_PER_ENTRY * (m + 1), |units|)]
  }

  function NameEntries(units: seq<u16>, n: nat): (e: seq<byte>)
    requires n <= EntriesFor(|units|)
    ensures |e| == ENTRY * n
  {
    if n == 0 then [] else NameEntries(units, n - 1) + NameEntry(ChunkOf(units, n - 1))
  }

  function FileEntry(e: EntryInfo, secondary: byte): (b: seq<byte>)
    ensures |b| == ENTRY
  {
    [0x85, secondary] + Zeros(2) + Put16(if e.isDir then 0x10 else 0x20) + Zeros(26)
  }

  function StreamEntry(e: EntryInfo, nameLen: nat): (b: seq<byte>)
    ensures |b| == ENTRY
  {
    [0xC0, if e.noFatChain then 0x03 else 0x01, 0, nameLen % 0x100] + Zeros(4) + Put64(e.size) + Zeros(4) + Put32(e.firstCluster) + Put64(e.size)
  }

  /** Names the format can hold: 1 to 255 units, none of them zero. */
  predicate Encodable(e: EntryInfo) {
    var units := Encode(e.name);
    1 <= |units| <= 255 && forall k :: 0 <= k < |units| ==> units[k] != 0
  }

  function EntrySet(e: EntryInfo): (b: seq<byte>)
    requires Encodable(e)
    ensures |b| == ENTRY * (2 + EntriesFor(|Encode(e.name)|))
  {
    var units := Encode(e.name);
    var n := EntriesFor(|units|);
    FileEntry(e, 1 + n) + StreamEntry(e, |units|) + NameEntries(units, n)
  }

  function EncodeAll(entries: seq<EntryInfo>): seq<byte>
    requires forall k :: 0 <= k < |entries| ==> Encodable(entries[k])
  {
    if entries == [] then [] else EntrySet(entries[0]) + EncodeAll(entries[1..])
  }

  /** A zeroed 32-byte slot is filled unit by unit. */
  method BuildNameEntry(chunk: seq<u16>) returns (out: seq<byte>)
    requires |chunk| <= UNITS_PER_ENTRY
    ensures out == NameEntry(chunk)
  {
    var entry := new byte[ENTRY](_ => 0);
    entry[0] := 0xC1;
    assert entry[..] == Filling(chunk, 0);
    for j := 0 to |chunk|
      invariant entry[..] == Filling(chunk, j)
    {
      FillingStep(chunk, j);
      entry[2 + j * 2], entry[3 + j * 2] := chunk[j] % 0x100, chunk[j] / 0x100;
    }
    assert chunk[..|chunk|] == chunk;
    out := entry[..];
  }

  /** A File Name entry with the first j units filled in. */
  function Filling(chunk: seq<u16>, j: nat): (e: seq<byte>)
    requires j <= |chunk| <= UNITS_PER_ENTRY
    ensures |e| == ENTRY
  {
    [0xC1, 0] + UnitBytes(chunk[..j]) + Zeros(30 - 2 * j)
  }

  lemma FillingStep(chunk: seq<u16>, j: nat)
    requires j < |chunk| <= UNITS_PER_ENTRY
    ensures Filling(chunk, j + 1) == Filling(chunk, j)[2 + j * 2 := chunk[j] % 0x100][3 + j * 2 := chunk[j] / 0x100]
  {
    assert chunk[..j + 1][..j] == chunk[..j];
    assert UnitBytes(chunk[..j + 1]) == UnitBytes(chunk[..j]) + Put16(chunk[j]);
  }

  /** `name_entries`: one entry for every 15 units. */
  method BuildNameEntries(units: seq<u16>) returns (out: seq<byte>)
    ensures out == NameEntries(units, EntriesFor(|units|))
  {
    out := [];
    var m := 0;
    while UNITS_PER_ENTRY * m < |units|
      invariant m <= EntriesFor(|units|) && out == NameEntries(units, m)
    {
      EntriesLeft(|units|, m);
      var entry := BuildNameEntry(ChunkOf(units, m));
      out := out + entry;
      m := m + 1;
    }
    EntriesLeft(|units|, m);
  }

  lemma EntriesLeft(n: nat, m: nat)
    requires m <= EntriesFor(n)
    ensures UNITS_PER_ENTRY * m < n <==> m < EntriesFor(n)
  {
  }

  method BuildEntrySet(e: EntryInfo) returns (out: seq<byte>)
    requires Encodable(e)
    ensures out == EntrySet(e)
  {
    var units := Encode(e.name);
    var names := BuildNameEntries(units);
    out := FileEntry(e, 1 + |names| / ENTRY) + StreamEntry(e, |units|) + names;
  }
}
