/** ISO 9660 directories and files as kernel/src/fs/iso9660.rs reads them
    (sections 6.8.1.1 and 9.1 of ECMA-119). */
module IsoDirectory {
  import opened Arith
  import opened BlockDevice
  import opened IsoNames
  import opened IsoSystemUse
  import Utf8
  import opened Wire

  const MAX_DIR_BYTES: nat := 0x400_0000

  datatype Record = Record(name: string, lba: u32, size: u32, isDir: bool)

  /** What is made of one record, if anything. */
  type Reader = seq<byte> -> Option<Record>

  /** One directory record, given how identifiers and system-use bytes name it. */
  function ParseWith(rec: seq<byte>, naming: (seq<byte>, seq<byte>) -> string): Option<Record> {
    if |rec| < 34 then None
    else
      var len: nat := rec[0];
      var nameLen: nat := rec[32];
      if len < 34 || len > |rec| || 33 + nameLen > len then None
      else
        var raw := rec[33..33 + nameLen];
        if |raw| == 1 && raw[0] <= 1 then None
        else
          var sysStart := 33 + nameLen + (if nameLen % 2 == 0 then 1 else 0);
          var name := naming(raw, if sysStart < len then rec[sysStart..len] else []);
          if name == [] then None
          else Some(Record(name, Le32(rec, 2), Le32(rec, 10), rec[25] / 2 % 2 == 1))
  }

  function Naming(joliet: bool): (seq<byte>, seq<byte>) -> string {
    (raw, sys) => NameOf(joliet, raw, sys)
  }

  function Parse(rec: seq<byte>, joliet: bool): Option<Record> {
    ParseWith(rec, Naming(joliet))
  }

  function Reading(joliet: bool): Reader {
    rec => Parse(rec, joliet)
  }

  /** The start of the block after the one byte i lies in. */
  function NextBlock(i: nat, bs: nat): (next: nat)
    requires bs > 0
    ensures i < next <= i + bs
  {
    if i < bs then bs else NextBlock(i - bs, bs) + bs
  }

  lemma {:induction false} NextBlockFrom(k: nat, j: nat, bs: nat)
    requires j < bs
    ensures NextBlock(Blocks(k, bs) + j, bs) == Blocks(k, bs) + bs
  {
    if k > 0 {
      NextBlockFrom(k - 1, j, bs);
    }
  }

  method SkipBlock(i: nat, bs: nat) returns (next: nat)
    requires bs > 0
    ensures next == NextBlock(i, bs)
  {
    var k, j := Split(i, bs);
    NextBlockFrom(k, j, bs);
    BlocksTimes(k + 1, bs);
    next := (i / bs + 1) * bs;
  }

  /** The records of a directory from offset i on. */
  function Scan(data: seq<byte>, bs: nat, read: Reader, i: nat): seq<Record>
    requires bs > 0
    decreases |data| - i
  {
    if i >= |data| then []
    else if data[i] == 0 then Scan(data, bs, read, NextBlock(i, bs))
    else
      var len: nat := data[i];
      if i + len > |data| then []
      else AsSeq(read(data[i..i + len])) + Scan(data, bs, read, i + len)
  }

  // ---- what a disc master writes ----

  /** A directory record: identifier, a padding byte if that makes the length
      even, and system-use bytes. */
  predicate IsRecord(rec: seq<byte>, id: seq<byte>, sys: seq<byte>, lba: u32, size: u32, isDir: bool) {
    var pad := if |id| % 2 == 0 then 1 else 0;
    && |rec| == 33 + |id| + pad + |sys| && Sized(rec) && |id| > 0
    && Le32(rec, 2) == lba && Le32(rec, 10) == size && (rec[25] / 2 % 2 == 1 <==> isDir)
    && rec[32] == |id| && rec[33..33 + |id|] == id && rec[33 + |id| + pad..] == sys
  }

  /** A record of a named file or directory gives that name, extent and kind;
      those of the directory itself and its parent give nothing. */
  lemma RecordRead(rec: seq<byte>, id: seq<byte>, sys: seq<byte>, lba: u32, size: u32, isDir: bool, joliet: bool)
    requires IsRecord(rec, id, sys, lba, size, isDir)
    ensures Parse(rec, joliet) ==
      if id == [0] || id == [1] || NameOf(joliet, id, sys) == "" then None else Some(Record(NameOf(joliet, id, sys), lba, size, isDir))
  {
    RecordParts(rec, id, sys, lba, size, isDir, Naming(joliet));
  }

  lemma RecordParts(rec: seq<byte>, id: seq<byte>, sys: seq<byte>, lba: u32, size: u32, isDir: bool, naming: (seq<byte>, seq<byte>) -> string)
    requires IsRecord(rec, id, sys, lba, size, isDir)
    ensures ParseWith(rec, naming) ==
      if id == [0] || id == [1] || naming(id, sys) == "" then None else Some(Record(naming(id, sys), lba, size, isDir))
  {
    var sysStart: nat := 33 + |id| + (if |id| % 2 == 0 then 1 else 0);
    assert rec[sysStart..rec[0]] == sys;
  }

  /** A record as laid out: its length is its first byte. */
  predicate Sized(rec: seq<byte>) {
    |rec| > 0 && rec[0] == |rec|
  }

  /** From byte i to `end` lie the records from number n on, one after
      another, and then zeros. */
  predicate Laid(data: seq<byte>, i: nat, end: nat, recs: seq<seq<byte>>, n: nat)
    requires i <= end <= |data| && n <= |recs|
    decreases |recs| - n
  {
    if n == |recs| then forall p :: i <= p < end ==> data[p] == 0
    else
      var r := recs[n];
      Sized(r) && i + |r| <= end && data[i..i + |r|] == r && Laid(data, i + |r|, end, recs, n + 1)
  }

  /** What is kept of the records from number n on. */
  function Kept(recs: seq<seq<byte>>, read: Reader, n: nat): seq<Record>
    requires n <= |recs|
    decreases |recs| - n
  {
    if n == |recs| then [] else AsSeq(read(recs[n])) + Kept(recs, read, n + 1)
  }

  /** The same for the blocks from number k on. */
  function AllKept(blocks: seq<seq<seq<byte>>>, read: Reader, k: nat): seq<Record>
    requires k <= |blocks|
    decreases |blocks| - k
  {
    if k == |blocks| then [] else Kept(blocks[k], read, 0) + AllKept(blocks, read, k + 1)
  }

  predicate BlockOf(data: seq<byte>, bs: nat, blocks: seq<seq<seq<byte>>>, k: nat)
    requires k < |blocks|
  {
    var at := Blocks(k, bs);
    at + bs <= |data| && Laid(data, at, at + bs, blocks[k], 0)
  }

  /** A directory extent: blocks of bs bytes, and the records in each. */
  predicate IsExtent(data: seq<byte>, bs: nat, blocks: seq<seq<seq<byte>>>) {
    && |data| == Blocks(|blocks|, bs)
    && forall k :: 0 <= k < |blocks| ==> BlockOf(data, bs, blocks, k)
  }

  lemma ScanRecord(data: seq<byte>, bs: nat, read: Reader, i: nat, r: seq<byte>, after: seq<Record>)
    requires bs > 0 && i + |r| <= |data| && Sized(r) && data[i..i + |r|] == r
    requires Scan(data, bs, read, i + |r|) == after
    ensures Scan(data, bs, read, i) == AsSeq(read(r)) + after
  {
    assert data[i] == data[i..i + |r|][0];
  }

  lemma ScanZeros(data: seq<byte>, bs: nat, read: Reader, i: nat, k: nat, end: nat)
    requires bs > 0 && Blocks(k, bs) <= i <= end == Blocks(k, bs) + bs <= |data|
    requires forall p :: i <= p < end ==> data[p] == 0
    ensures Scan(data, bs, read, i) == Scan(data, bs, read, end)
  {
    if i < end {
      NextBlockFrom(k, i - Blocks(k, bs), bs);
    }
  }

  /** Within block k, from byte i of the directory and record n on. */
  lemma {:induction false} ScanBlock(data: seq<byte>, bs: nat, read: Reader, i: nat, k: nat, end: nat, recs: seq<seq<byte>>, n: nat, tail: seq<Record>)
    requires bs > 0 && Blocks(k, bs) <= i <= end == Blocks(k, bs) + bs <= |data|
    requires n <= |recs| && Laid(data, i, end, recs, n) && Scan(data, bs, read, end) == tail
    ensures Scan(data, bs, read, i) == Kept(recs, read, n) + tail
    decreases |recs| - n
  {
    if n == |recs| {
      ScanZeros(data, bs, read, i, k, end);
      EmptyFirst(tail);
    } else {
      var r := recs[n];
      ScanBlock(data, bs, read, i + |r|, k, end, recs, n + 1, tail);
      ScanRecord(data, bs, read, i, r, Kept(recs, read, n + 1) + tail);
      Regroup(AsSeq(read(r)), Kept(recs, read, n + 1), tail);
    }
  }

  lemma EmptyFirst<T>(s: seq<T>)
    ensures [] + s == s
  {
  }

  lemma {:induction false} ScanFrom(data: seq<byte>, bs: nat, read: Reader, blocks: seq<seq<seq<byte>>>, k: nat)
    requires bs > 0 && IsExtent(data, bs, blocks) && k <= |blocks|
    ensures Scan(data, bs, read, Blocks(k, bs)) == AllKept(blocks, read, k)
    decreases |blocks| - k
  {
    if k < |blocks| {
      ScanFrom(data, bs, read, blocks, k + 1);
      BlockScanned(data, bs, read, blocks, k, AllKept(blocks, read, k + 1));
    }
  }

  lemma BlockScanned(data: seq<byte>, bs: nat, read: Reader, blocks: seq<seq<seq<byte>>>, k: nat, tail: seq<Record>)
    requires bs > 0 && k < |blocks| && BlockOf(data, bs, blocks, k) && Blocks(k + 1, bs) <= |data|
    requires Scan(data, bs, read, Blocks(k + 1, bs)) == tail
    ensures Scan(data, bs, read, Blocks(k, bs)) == Kept(blocks[k], read, 0) + tail
  {
    var at := Blocks(k, bs);
    ScanBlock(data, bs, read, at, k, at + bs, blocks[k], 0, tail);
  }

  /** Whatever lies in the blocks of a directory is read, in order: no record
      is lost at a block's end, none is read twice. */
  lemma ExtentReads(data: seq<byte>, bs: nat, read: Reader, blocks: seq<seq<seq<byte>>>)
    requires bs > 0 && IsExtent(data, bs, blocks)
    ensures Scan(data, bs, read, 0) == AllKept(blocks, read, 0)
  {
    ScanFrom(data, bs, read, blocks, 0);
  }

  /** What one record of a directory is about, and its system-use bytes. A
      record that is named has a spelled identifier, or any, if Rock Ridge
      names it. */
  datatype Item =
    | Self(sys: seq<byte>)
    | Parent(sys: seq<byte>)
    | Spelt(spelling: Spelling, sys: seq<byte>, fields: seq<Field>, record: Record)
    | RockRidge(id: seq<byte>, sys: seq<byte>, fields: seq<Field>, record: Record)

  /** The record says this about its item. */
  predicate Describes(joliet: bool, rec: seq<byte>, item: Item) {
    match item
    case Self(sys) => IsRecord(rec, [0], sys, LbaOf(rec), SizeOf(rec), IsDirOf(rec))
    case Parent(sys) => IsRecord(rec, [1], sys, LbaOf(rec), SizeOf(rec), IsDirOf(rec))
    case Spelt(spelling, sys, fields, r) =>
      && IsNamedRecord(rec, Spelled(joliet, spelling), sys, r) && Nameable(spelling.name) && r.name == spelling.name
      && Consists(sys, fields) && (joliet || NameKept(fields, 0) == "")
    case RockRidge(id, sys, fields, r) =>
      && IsNamedRecord(rec, id, sys, r) && !joliet
      && Consists(sys, fields) && NameKept(fields, 0) != "" && r.name == NameKept(fields, 0)
  }

  predicate IsNamedRecord(rec: seq<byte>, id: seq<byte>, sys: seq<byte>, r: Record) {
    IsRecord(rec, id, sys, r.lba, r.size, r.isDir) && id != [0] && id != [1]
  }

  function LbaOf(rec: seq<byte>): u32 { U32At(rec, 2) }
  function SizeOf(rec: seq<byte>): u32 { U32At(rec, 10) }
  predicate IsDirOf(rec: seq<byte>) { |rec| > 25 && rec[25] / 2 % 2 == 1 }

  /** What a listing shows of an item: files and directories with a name. */
  function Shown(item: Item): Option<Record> {
    if (item.Spelt? || item.RockRidge?) && item.record.name != "" then Some(item.record) else None
  }

  /** The items of a block from number n on, as a listing shows them. */
  function Listing(items: seq<Item>, n: nat): seq<Record>
    requires n <= |items|
    decreases |items| - n
  {
    if n == |items| then [] else AsSeq(Shown(items[n])) + Listing(items, n + 1)
  }

  /** The same for the blocks from number k on. */
  function FullListing(items: seq<seq<Item>>, k: nat): seq<Record>
    requires k <= |items|
    decreases |items| - k
  {
    if k == |items| then [] else Listing(items[k], 0) + FullListing(items, k + 1)
  }

  lemma ItemRead(joliet: bool, rec: seq<byte>, item: Item)
    requires Describes(joliet, rec, item)
    ensures Reading(joliet)(rec) == Shown(item)
  {
    match item
    case Self(sys) => RecordRead(rec, [0], sys, LbaOf(rec), SizeOf(rec), IsDirOf(rec), joliet);
    case Parent(sys) => RecordRead(rec, [1], sys, LbaOf(rec), SizeOf(rec), IsDirOf(rec), joliet);
    case Spelt(spelling, sys, fields, r) =>
      NamedRead(joliet, Spelled(joliet, spelling), spelling, sys, fields);
      RecordRead(rec, Spelled(joliet, spelling), sys, r.lba, r.size, r.isDir, joliet);
    case RockRidge(id, sys, fields, r) =>
      NamedRead(joliet, id, Spelling("", 0, None), sys, fields);
      RecordRead(rec, id, sys, r.lba, r.size, r.isDir, joliet);
  }

  /** Every record of a plain volume is about some item, provided that its
      identifier, up to the version, is text where nothing else names it. */
  lemma EveryRecord(rec: seq<byte>, id: seq<byte>, sys: seq<byte>, lba: u32, size: u32, isDir: bool) returns (item: Item)
    requires IsRecord(rec, id, sys, lba, size, isDir)
    requires Utf8.Validate(Before(id, SEMICOLON)).verdict.Clean? || RockRidgeName(sys, FromUtf8()).Some?
    ensures Describes(false, rec, item)
  {
    if id == [0] { return Self(sys); }
    if id == [1] { return Parent(sys); }
    var fields := EveryArea(sys);
    AreaReads(sys, fields);
    if NameKept(fields, 0) != "" {
      item := RockRidge(id, sys, fields, Record(NameKept(fields, 0), lba, size, isDir));
    } else {
      var spelling := EveryIdentifier(id);
      item := Spelt(spelling, sys, fields, Record(spelling.name, lba, size, isDir));
    }
  }

  predicate BlockDescribes(joliet: bool, recs: seq<seq<byte>>, items: seq<Item>) {
    |recs| == |items| && forall j :: 0 <= j < |recs| ==> Describes(joliet, recs[j], items[j])
  }

  predicate BlockShows(recs: seq<seq<byte>>, read: Reader, items: seq<Item>) {
    |recs| == |items| && forall j :: 0 <= j < |recs| ==> read(recs[j]) == Shown(items[j])
  }

  lemma {:induction false} KeptAre(recs: seq<seq<byte>>, read: Reader, items: seq<Item>, n: nat)
    requires BlockShows(recs, read, items) && n <= |recs|
    ensures Kept(recs, read, n) == Listing(items, n)
    decreases |recs| - n
  {
    if n < |recs| {
      KeptAre(recs, read, items, n + 1);
    }
  }

  lemma {:induction false} AllKeptAre(blocks: seq<seq<seq<byte>>>, read: Reader, items: seq<seq<Item>>, k: nat)
    requires AllShown(blocks, read, items) && k <= |blocks|
    ensures AllKept(blocks, read, k) == FullListing(items, k)
    decreases |blocks| - k
  {
    if k < |blocks| {
      KeptAre(blocks[k], read, items[k], 0);
      AllKeptAre(blocks, read, items, k + 1);
    }
  }

  predicate AllDescribed(joliet: bool, blocks: seq<seq<seq<byte>>>, items: seq<seq<Item>>) {
    |blocks| == |items| && forall b :: 0 <= b < |blocks| ==> BlockDescribes(joliet, blocks[b], items[b])
  }

  predicate AllShown(blocks: seq<seq<seq<byte>>>, read: Reader, items: seq<seq<Item>>) {
    |blocks| == |items| && forall b :: 0 <= b < |blocks| ==> BlockShows(blocks[b], read, items[b])
  }

  /** A directory laid out as records that do not cross a block and zeros to
      the end of each block lists exactly its files and directories, in order,
      under their names and with their extents, and neither itself nor its
      parent. */
  lemma DirectoryListed(data: seq<byte>, bs: nat, joliet: bool, blocks: seq<seq<seq<byte>>>, items: seq<seq<Item>>)
    requires bs > 0 && IsExtent(data, bs, blocks)
    requires AllDescribed(joliet, blocks, items)
    ensures Scan(data, bs, Reading(joliet), 0) == FullListing(items, 0)
  {
    AllRead(joliet, blocks, items);
    ShownListed(data, bs, Reading(joliet), blocks, items);
  }

  lemma ShownListed(data: seq<byte>, bs: nat, read: Reader, blocks: seq<seq<seq<byte>>>, items: seq<seq<Item>>)
    requires bs > 0 && IsExtent(data, bs, blocks) && AllShown(blocks, read, items)
    ensures Scan(data, bs, read, 0) == FullListing(items, 0)
  {
    AllKeptAre(blocks, read, items, 0);
    ExtentReads(data, bs, read, blocks);
  }

  lemma AllRead(joliet: bool, blocks: seq<seq<seq<byte>>>, items: seq<seq<Item>>)
    requires AllDescribed(joliet, blocks, items)
    ensures AllShown(blocks, Reading(joliet), items)
  {
    forall b | 0 <= b < |blocks| ensures BlockShows(blocks[b], Reading(joliet), items[b]) {
      BlockRead(joliet, blocks[b], items[b]);
    }
  }

  lemma BlockRead(joliet: bool, recs: seq<seq<byte>>, items: seq<Item>)
    requires BlockDescribes(joliet, recs, items)
    ensures BlockShows(recs, Reading(joliet), items)
  {
    forall j | 0 <= j < |recs| ensures Reading(joliet)(recs[j]) == Shown(items[j]) {
      ItemRead(joliet, recs[j], items[j]);
    }
  }

  /** Any bytes of the disk, through whole 512-byte sectors. */
  method ReadAbs(disk: Disk, byteOffset: nat, len: nat) returns (r: Option<seq<byte>>)
    modifies disk
    ensures disk.failures == old(disk.failures) + Failed(r)
    ensures r.Some? && len > 0 ==> byteOffset + len <= |disk.image| && r.value == disk.image[byteOffset..byteOffset + len]
    ensures len == 0 ==> r == Some([])
  {
    if len == 0 { return Some([]); }
    var sector, start := byteOffset / SECTOR_SIZE, byteOffset % SECTOR_SIZE;
    var sectors := (start + len + 511) / 512;
    var tmp := disk.Read(sector, sectors * SECTOR_SIZE);
    if tmp.None? { return None; }
    SliceOfSlice(disk.image, sector * SECTOR_SIZE, sector * SECTOR_SIZE + sectors * SECTOR_SIZE, start, start + len);
    return Some(tmp.value[start..start + len]);
  }

  method ListRecords(data: seq<byte>, bs: nat, read: Reader) returns (out: seq<Record>)
    requires bs > 0
    ensures out == Scan(data, bs, read, 0)
  {
    out := [];
    var i := 0;
    ghost var all := Scan(data, bs, read, 0);
    while i < |data|
      invariant all == out + Scan(data, bs, read, i)
      decreases |data| - i
    {
      var more, found, next := ListNext(data, bs, read, i);
      if !more { break; }
      Regroup(out, found, Scan(data, bs, read, next));
      out := out + found;
      i := next;
    }
  }

  /** One turn of the loop: what byte i begins and where to look next. */
  method ListNext(data: seq<byte>, bs: nat, read: Reader, i: nat) returns (more: bool, found: seq<Record>, next: nat)
    requires bs > 0 && i < |data|
    ensures more ==> next > i && Scan(data, bs, read, i) == found + Scan(data, bs, read, next)
    ensures !more ==> Scan(data, bs, read, i) == []
  {
    var len: nat := data[i];
    if len == 0 {
      next := SkipBlock(i, bs);
      NothingHere(data, bs, read, i);
      return true, [], next;
    }
    if i + len > |data| { return false, [], i; }
    return true, AsSeq(read(data[i..i + len])), i + len;
  }

  lemma NothingHere(data: seq<byte>, bs: nat, read: Reader, i: nat)
    requires bs > 0 && i < |data| && data[i] == 0
    ensures Scan(data, bs, read, i) == [] + Scan(data, bs, read, NextBlock(i, bs))
  {
    EmptyFirst(Scan(data, bs, read, NextBlock(i, bs)));
  }

  method ListAt(disk: Disk, at: nat, len: nat, bs: nat, read: Reader) returns (r: Result<seq<Record>>)
    requires len > 0 && bs > 0
    modifies disk
    ensures r == Err(IoError) || r.Ok?
    ensures r.Ok? <==> disk.failures == old(disk.failures)
    ensures r.Ok? ==> at + len <= |disk.image| && r.value == Scan(disk.image[at..at + len], bs, read, 0)
  {
    var data := ReadAbs(disk, at, len);
    if data.None? { return Err(IoError); }
    var records := ListRecords(data.value, bs, read);
    return Ok(records);
  }

  class IsoFs {
    const disk: Disk
    const blockSize: nat
    const joliet: bool
    /** How records are read, which the kind of volume decides. */
    const read: Reader

    ghost predicate Valid()
    {
      blockSize > 0
    }

    ghost predicate Names()
    {
      read == Reading(joliet)
    }

    constructor (disk: Disk, blockSize: nat, joliet: bool)
      requires blockSize > 0
      ensures Valid() && Names() && this.disk == disk && this.blockSize == blockSize && this.joliet == joliet
    {
      this.disk, this.blockSize, this.joliet, this.read := disk, blockSize, joliet, Reading(joliet);
    }

    /** The directory in an extent, of which at most 64 MiB are looked at. */
    method List(lba: nat, size: nat) returns (r: Result<seq<Record>>)
      requires Valid()
      modifies disk
      ensures r == Err(IoError) || r.Ok?
      ensures r.Ok? <==> disk.failures == old(disk.failures)
      ensures size == 0 ==> r == Ok([])
      ensures r.Ok? && size > 0 ==> var at, len := lba * blockSize, Min(size, MAX_DIR_BYTES);
        at + len <= |disk.image| && r.value == Scan(disk.image[at..at + len], blockSize, read, 0)
    {
      var len := Min(size, MAX_DIR_BYTES);
      if len == 0 { return Ok([]); }
      r := ListAt(disk, lba * blockSize, len, blockSize, read);
    }

    /** A directory made of these items is listed as they are. */
    method ListItems(lba: nat, size: nat, ghost blocks: seq<seq<seq<byte>>>, ghost items: seq<seq<Item>>) returns (r: Result<seq<Record>>)
      requires Valid() && Names() && 0 < size <= MAX_DIR_BYTES && lba * blockSize + size <= |disk.image|
      requires IsExtent(disk.image[lba * blockSize..lba * blockSize + size], blockSize, blocks)
      requires AllDescribed(joliet, blocks, items)
      modifies disk
      ensures r == if disk.failures == old(disk.failures) then Ok(FullListing(items, 0)) else Err(IoError)
    {
      ghost var data := disk.image[lba * blockSize..lba * blockSize + size];
      AllRead(joliet, blocks, items);
      r := ListShown(lba, size, data, blocks, items);
    }

    method ListShown(lba: nat, size: nat, ghost data: seq<byte>, ghost blocks: seq<seq<seq<byte>>>, ghost items: seq<seq<Item>>)
        returns (r: Result<seq<Record>>)
      requires Valid() && 0 < size <= MAX_DIR_BYTES && lba * blockSize + size <= |disk.image|
      requires data == disk.image[lba * blockSize..lba * blockSize + size]
      requires IsExtent(data, blockSize, blocks) && AllShown(blocks, read, items)
      modifies disk
      ensures r == if disk.failures == old(disk.failures) then Ok(FullListing(items, 0)) else Err(IoError)
    {
      r := List(lba, size);
      ShownListed(data, blockSize, read, blocks, items);
    }
  }

  /** An open file: a contiguous extent and a position in it. */
  class IsoFile {
    const disk: Disk
    const base: nat
    const size: nat
    var position: nat

    constructor (disk: Disk, record: Record, blockSize: nat)
      ensures this.disk == disk && base == record.lba * blockSize && size == record.size && position == 0
    {
      this.disk, base, size, position := disk, record.lba * blockSize, record.size, 0;
    }

    /** The next bytes of the extent, fewer only at its end. */
    method Read(len: nat) returns (r: Result<seq<byte>>)
      modifies this`position, disk
      ensures r == Err(IoError) || r.Ok?
      ensures r.Ok? <==> disk.failures == old(disk.failures)
      ensures r.Err? ==> position == old(position) && disk.failures > old(disk.failures)
      ensures r.Ok? ==> |r.value| == Max(0, Min(len, size - old(position))) && position == old(position) + |r.value|
      ensures r.Ok? && r.value != [] ==>
        base + position <= |disk.image| && r.value == disk.image[base + old(position)..base + position]
    {
      if len == 0 || position >= size { return Ok([]); }
      var n := Min(len, size - position);
      var data := ReadAbs(disk, base + position, n);
      if data.None? { return Err(IoError); }
      position := position + n;
      return Ok(data.value);
    }

    /** Reads of any lengths, one after the other, give one slice of the extent. */
    method ReadParts(lens: seq<nat>) returns (r: Result<seq<byte>>)
      modifies this`position, disk
      ensures r.Ok? <==> disk.failures == old(disk.failures)
      ensures old(position) <= position <= Max(size, old(position))
      ensures r.Ok? ==> position == old(position) + |r.value|
      ensures r.Ok? && r.value != [] ==>
        base + position <= |disk.image| && r.value == disk.image[base + old(position)..base + position]
    {
      var out := [];
      var i := 0;
      while i < |lens|
        invariant 0 <= i <= |lens| && disk.failures == old(disk.failures) && old(position) <= position <= Max(size, old(position)) && position == old(position) + |out|
        invariant out != [] ==> base + position <= |disk.image| && out == disk.image[base + old(position)..base + position]
      {
        var part := Read(lens[i]);
        if part.Err? { return Err(part.error); }
        out := out + part.value;
        i := i + 1;
      }
      return Ok(out);
    }
  }
}
