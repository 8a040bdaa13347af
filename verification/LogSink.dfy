/** The log file sink of kernel/src/boot_log/usb.rs: ring bytes are appended to
    a preallocated FAT file, data first, size second, so that a power cut
    leaves a valid prefix of the log behind. */
module LogSink {
  import opened LogRing
  import opened Wire

  const CHUNK: nat := 4096
  const MAX_WRITE_FAILURES: nat := 3
  const FULL_TEXT: string := "\n[LOG] log file is full; output truncated\n"

  function Ascii(s: string): (b: seq<byte>)
    ensures |b| == |s|
  {
    seq(|s|, i requires 0 <= i < |s| => s[i] as int % 0x100)
  }

  function Decimal(n: nat): string {
    var digit := ((n % 10) + 48) as char;
    if n < 10 then [digit] else Decimal(n / 10) + [digit]
  }

  /** What a string of decimal digits stands for. */
  function Number(s: string): int {
    if s == "" then 0 else Number(s[..|s| - 1]) * 10 + (s[|s| - 1] as int - 48)
  }

  lemma {:induction false} DecimalReads(n: nat)
    ensures Number(Decimal(n)) == n && forall d :: d in Decimal(n) ==> '0' <= d <= '9'
  {
    var digit := ((n % 10) + 48) as char;
    if n < 10 {
      assert Decimal(n)[..0] == "";
    } else {
      DecimalReads(n / 10);
      assert Decimal(n)[..|Decimal(n)| - 1] == Decimal(n / 10);
    }
  }

  /** The texts of the two notes the sink writes about itself. */
  datatype Notes = Notes(full: seq<byte>, dropped: nat -> seq<byte>)

  function EnglishNotes(): Notes {
    Notes(Ascii(FULL_TEXT), n => Ascii("\n[LOG] " + Decimal(n) + " byte(s) dropped: ring buffer overflowed\n"))
  }

  /** What a piece of the file stands for. */
  datatype Segment = Data(from: nat, to: nat) | Dropped(count: nat) | Full

  function Bytes(notes: Notes, g: Segment, history: seq<byte>): seq<byte> {
    match g
    case Data(from, to) => if from <= to <= |history| then history[from..to] else []
    case Dropped(count) => notes.dropped(count)
    case Full => notes.full
  }

  function Flatten(notes: Notes, segs: seq<Segment>, history: seq<byte>): seq<byte> {
    if segs == [] then [] else Flatten(notes, segs[..|segs| - 1], history) + Bytes(notes, segs[|segs| - 1], history)
  }

  /** Where the last data segment ends. */
  function End(segs: seq<Segment>, base: nat): nat {
    if segs == [] then base
    else match segs[|segs| - 1]
      case Data(_, to) => to
      case _ => End(segs[..|segs| - 1], base)
  }

  /** Data segments are non-empty, disjoint and in log order. */
  predicate Ordered(segs: seq<Segment>, base: nat) {
    segs == [] ||
    (var before := segs[..|segs| - 1];
     Ordered(before, base) &&
     match segs[|segs| - 1]
     case Data(from, to) => End(before, base) <= from < to
     case _ => true)
  }

  /** Log bytes the data segments hold. */
  function Stored(segs: seq<Segment>): nat {
    if segs == [] then 0 else Stored(segs[..|segs| - 1]) + Held(segs[|segs| - 1])
  }

  function Held(g: Segment): nat {
    if g.Data? && g.from <= g.to then g.to - g.from else 0
  }

  /** One more piece of data, if it is not empty. */
  function Longer(segs: seq<Segment>, from: nat, end: nat): seq<Segment> {
    if from < end then segs + [Data(from, end)] else segs
  }

  predicate NoMarkers(segs: seq<Segment>) {
    forall k :: 0 <= k < |segs| ==> segs[k].Data?
  }

  lemma {:induction false} FlattenStable(notes: Notes, segs: seq<Segment>, history: seq<byte>, more: seq<byte>, base: nat)
    requires Ordered(segs, base) && base <= |history| && End(segs, base) <= |history|
    ensures Flatten(notes, segs, history + more) == Flatten(notes, segs, history)
  {
    if segs != [] {
      var before := segs[..|segs| - 1];
      EndMonotone(segs, base);
      FlattenStable(notes, before, history, more, base);
    }
  }

  lemma {:induction false} EndMonotone(segs: seq<Segment>, base: nat)
    requires Ordered(segs, base) && segs != []
    ensures base <= End(segs[..|segs| - 1], base) <= End(segs, base)
  {
    var before := segs[..|segs| - 1];
    if before != [] {
      EndMonotone(before, base);
    }
  }

  lemma JoinSlices(s: seq<byte>, a: nat, b: nat, c: nat)
    requires a <= b <= c <= |s|
    ensures s[a..b] + s[b..c] == s[a..c]
  {
  }

  lemma LastData(notes: Notes, segs: seq<Segment>, history: seq<byte>)
    requires segs != [] && segs[|segs| - 1].Data? && segs[|segs| - 1].from <= segs[|segs| - 1].to <= |history|
    ensures var before, last := segs[..|segs| - 1], segs[|segs| - 1];
      && Stored(segs) == Stored(before) + (last.to - last.from)
      && Flatten(notes, segs, history) == Flatten(notes, before, history) + history[last.from..last.to]
  {
  }

  /** A file without markers whose data adds up to everything from `base` to
      `end` is one contiguous piece of the log. */
  lemma {:induction false} Contiguous(notes: Notes, segs: seq<Segment>, history: seq<byte>, base: nat, end: nat)
    requires NoMarkers(segs) && Ordered(segs, base) && End(segs, base) <= end <= |history|
    requires Stored(segs) == end - base
    ensures End(segs, base) == end && Flatten(notes, segs, history) == history[base..end]
  {
    StoredBound(segs, base);
    if segs != [] {
      var before, last := segs[..|segs| - 1], segs[|segs| - 1];
      LastData(notes, segs, history);
      StoredBound(before, base);
      Contiguous(notes, before, history, base, last.from);
      JoinSlices(history, base, last.from, end);
    }
  }

  lemma {:induction false} StoredBound(segs: seq<Segment>, base: nat)
    requires Ordered(segs, base)
    ensures base <= End(segs, base) && Stored(segs) <= End(segs, base) - base
  {
    if segs != [] {
      StoredBound(segs[..|segs| - 1], base);
    }
  }

  lemma {:induction false} StoredIsLength(notes: Notes, segs: seq<Segment>, history: seq<byte>, base: nat)
    requires NoMarkers(segs) && Ordered(segs, base) && End(segs, base) <= |history|
    ensures |Flatten(notes, segs, history)| == Stored(segs)
  {
    if segs != [] {
      EndMonotone(segs, base);
      StoredIsLength(notes, segs[..|segs| - 1], history, base);
    }
  }

  /** No log byte is stored twice or out of order. */
  lemma {:induction false} Disjoint(segs: seq<Segment>, base: nat, i: nat, j: nat)
    requires Ordered(segs, base) && i < j < |segs| && segs[i].Data? && segs[j].Data?
    ensures segs[i].from < segs[i].to <= segs[j].from < segs[j].to
  {
    var before := segs[..|segs| - 1];
    if j < |segs| - 1 {
      Disjoint(before, base, i, j);
    } else {
      EndCovers(before, base, i);
    }
  }

  lemma {:induction false} EndCovers(segs: seq<Segment>, base: nat, i: nat)
    requires Ordered(segs, base) && i < |segs| && segs[i].Data?
    ensures segs[i].from < segs[i].to <= End(segs, base)
  {
    if i < |segs| - 1 {
      EndCovers(segs[..|segs| - 1], base, i);
      EndMonotone(segs, base);
    }
  }

  /** What one more piece does to the account. */
  lemma AddSegment(notes: Notes, segs: seq<Segment>, g: Segment, base: nat, history: seq<byte>)
    requires Ordered(segs, base)
    requires g.Data? ==> End(segs, base) <= g.from < g.to
    ensures Ordered(segs + [g], base)
    ensures End(segs + [g], base) == if g.Data? then g.to else End(segs, base)
    ensures Stored(segs + [g]) == Stored(segs) + Held(g)
    ensures Flatten(notes, segs + [g], history) == Flatten(notes, segs, history) + Bytes(notes, g, history)
  {
    assert (segs + [g])[..|segs + [g]| - 1] == segs;
  }

  /** What a power cut leaves of the file: the bytes of its cluster chain and
      the size in its directory entry. */
  datatype OnDisk = OnDisk(data: seq<byte>, size: nat)

  /** Bytes outside [off, off + len) are as they were. */
  predicate SameOutside(data: seq<byte>, data': seq<byte>, off: nat, len: nat) {
    && |data| <= |data'| && off <= |data|
    && data'[..off] == data[..off]
    && forall k :: off + len <= k < |data| ==> data'[k] == data[k]
  }

  /** A byte in the file or right behind it. */
  function Put(data: seq<byte>, at: nat, b: byte): seq<byte>
    requires at <= |data|
  {
    if at < |data| then data[at := b] else data + [b]
  }

  lemma BytePut(was: seq<byte>, data: seq<byte>, off: nat, bytes: seq<byte>, i: nat)
    requires i < |bytes| && off + i <= |data| && data[off..off + i] == bytes[..i] && SameOutside(was, data, off, |bytes|)
    ensures var data' := Put(data, off + i, bytes[i]);
      off + i < |data'| && data'[off..off + i + 1] == bytes[..i + 1] && SameOutside(was, data', off, |bytes|)
  {
    var data' := Put(data, off + i, bytes[i]);
    assert data'[off..off + i + 1] == data[off..off + i] + [bytes[i]];
    assert bytes[..i + 1] == bytes[..i] + [bytes[i]];
    assert data'[..off] == data[..off];
  }

  /** What becomes of one request: how many bytes land at most (a size lands
      whole unless none do), and whether success is reported for it. */
  datatype Fate = Fate(done: nat, reported: bool)

  predicate Lands(f: Fate, len: nat) {
    f.done >= len && f.reported
  }

  class LogFile {
    var disk: OnDisk
    /** The fate of each request to come; any sequence of faults is one. */
    const fate: nat -> Fate
    var requests: nat
    /** Every state the disk has been in. */
    ghost var trace: seq<OnDisk>
    /** How many data writes have failed so far. */
    ghost var failures: nat

    ghost predicate Valid()
      reads this
    {
      trace != [] && trace[|trace| - 1] == disk
    }

    constructor (found: OnDisk, fate: nat -> Fate)
      ensures Valid() && disk == found && trace == [found] && this.fate == fate && requests == 0 && failures == 0
    {
      disk := found;
      this.fate := fate;
      requests := 0;
      trace := [found];
      failures := 0;
    }

    /** Writes data and leaves the size alone. The request may fail, or be
        cut short, at any byte. */
    method WriteAt(off: nat, bytes: seq<byte>) returns (ok: bool)
      requires Valid() && off <= |disk.data|
      modifies this
      ensures Valid() && old(trace) <= trace
      ensures failures == old(failures) + (if ok then 0 else 1)
      ensures (ok <==> Lands(fate(old(requests)), |bytes|)) && requests == old(requests) + 1
      ensures forall t :: |old(trace)| <= t < |trace| ==> trace[t].size == old(disk.size) && SameOutside(old(disk.data), trace[t].data, off, |bytes|)
      ensures disk.size == old(disk.size) && SameOutside(old(disk.data), disk.data, off, |bytes|)
      ensures ok ==> off + |bytes| <= |disk.data| && disk.data[off..off + |bytes|] == bytes
      ensures var landed := Min(fate(old(requests)).done, |bytes|);
        off + landed <= |disk.data| && disk.data[off..off + landed] == bytes[..landed]
    {
      var f := fate(requests);
      requests := requests + 1;
      var done := Min(f.done, |bytes|);
      var i := 0;
      while i < done
        invariant 0 <= i <= done && Valid() && old(trace) <= trace
        invariant failures == old(failures) && requests == old(requests) + 1
        invariant forall t :: |old(trace)| <= t < |trace| ==> trace[t].size == old(disk.size) && SameOutside(old(disk.data), trace[t].data, off, |bytes|)
        invariant disk.size == old(disk.size) && SameOutside(old(disk.data), disk.data, off, |bytes|)
        invariant off + i <= |disk.data| && disk.data[off..off + i] == bytes[..i]
      {
        BytePut(old(disk.data), disk.data, off, bytes, i);
        disk := disk.(data := Put(disk.data, off + i, bytes[i]));
        trace := trace + [disk];
        i := i + 1;
      }
      ok := done == |bytes| && f.reported;
      if !ok {
        failures := failures + 1;
      }
    }

    /** The size is one field of one sector: it is updated whole or not at all,
        and either may be reported as a failure. */
    method PublishSize(size: nat) returns (ok: bool, ghost landed: bool)
      requires Valid()
      modifies this
      ensures Valid() && old(trace) <= trace && failures == old(failures) && requests == old(requests) + 1
      ensures landed == (fate(old(requests)).done > 0) && ok == (landed && fate(old(requests)).reported)
      ensures if landed then disk == old(disk).(size := size) && trace == old(trace) + [disk]
                        else disk == old(disk) && trace == old(trace)
    {
      var f := fate(requests);
      requests := requests + 1;
      ok, landed := f.done > 0 && f.reported, f.done > 0;
      if f.done > 0 {
        disk := disk.(size := size);
        trace := trace + [disk];
      }
    }
  }

  predicate PublishedPrefix(d: OnDisk, stream: seq<byte>) {
    d.size <= |stream| && d.size <= |d.data| && d.data[..d.size] == stream[..d.size]
  }

  /** Every log byte below the cursor is in the file once or counted as lost. */
  ghost predicate Accounted(notes: Notes, base: nat, cursor: nat, lost: nat, segs: seq<Segment>, stream: seq<byte>, history: seq<byte>) {
    && base <= cursor <= |history|
    && Ordered(segs, base) && End(segs, base) <= cursor
    && cursor - base == Stored(segs) + lost
    && stream == Flatten(notes, segs, history)
  }

  /** A chunk is appended; whatever lies between it and the cursor is lost. */
  lemma AccountChunk(notes: Notes, base: nat, cursor: nat, lost: nat, segs: seq<Segment>, stream: seq<byte>, history: seq<byte>, from: nat, to: nat)
    requires Accounted(notes, base, cursor, lost, segs, stream, history)
    requires cursor <= from < to <= |history|
    ensures Accounted(notes, base, to, lost + (from - cursor), segs + [Data(from, to)], stream + history[from..to], history)
  {
    AddSegment(notes, segs, Data(from, to), base, history);
  }

  lemma AccountNote(notes: Notes, base: nat, cursor: nat, lost: nat, segs: seq<Segment>, stream: seq<byte>, history: seq<byte>, g: Segment)
    requires Accounted(notes, base, cursor, lost, segs, stream, history) && !g.Data?
    ensures Accounted(notes, base, cursor, lost, segs + [g], stream + Bytes(notes, g, history), history)
  {
    AddSegment(notes, segs, g, base, history);
  }

  ghost predicate Appended(written: nat, capacity: nat, stream: seq<byte>, data: seq<byte>) {
    && written == |stream| <= capacity
    && written <= |data| && data[..written] == stream
  }

  /** In every state since `mark` the published part of the file is a prefix
      of the stream, and it never shrank. */
  ghost predicate CrashSafe(trace: seq<OnDisk>, mark: nat, stream: seq<byte>) {
    && mark < |trace|
    && (forall t :: mark <= t < |trace| ==> PublishedPrefix(trace[t], stream))
    && (forall t, t' :: mark <= t < t' < |trace| ==> trace[t].size <= trace[t'].size)
  }

  /** Writing beyond the stream disturbs no published byte, whole or cut short. */
  lemma WriteKeepsCrashSafe(trace: seq<OnDisk>, trace': seq<OnDisk>, mark: nat, stream: seq<byte>, len: nat)
    requires CrashSafe(trace, mark, stream) && trace <= trace'
    requires var last := trace[|trace| - 1];
      forall t :: |trace| <= t < |trace'| ==> trace'[t].size == last.size && SameOutside(last.data, trace'[t].data, |stream|, len)
    ensures CrashSafe(trace', mark, stream)
  {
    var last := trace[|trace| - 1];
    forall t | |trace| <= t < |trace'|
      ensures PublishedPrefix(trace'[t], stream)
    {
      assert PublishedPrefix(last, stream);
      assert trace'[t].data[..last.size] == trace'[t].data[..|stream|][..last.size] == last.data[..|stream|][..last.size];
    }
    SizesKeepOrder(trace, trace', mark);
  }

  lemma SizesKeepOrder(trace: seq<OnDisk>, trace': seq<OnDisk>, mark: nat)
    requires mark < |trace| && trace <= trace'
    requires forall t, t' :: mark <= t < t' < |trace| ==> trace[t].size <= trace[t'].size
    requires forall t :: |trace| <= t < |trace'| ==> trace'[t].size == trace[|trace| - 1].size
    ensures forall t, t' :: mark <= t < t' < |trace'| ==> trace'[t].size <= trace'[t'].size
  {
  }

  /** Publishing the length of the stream once its bytes are on disk. */
  lemma PublishKeepsCrashSafe(trace: seq<OnDisk>, mark: nat, stream: seq<byte>, d: OnDisk)
    requires CrashSafe(trace, mark, stream)
    requires d.size == |stream| <= |d.data| && d.data[..d.size] == stream
    ensures CrashSafe(trace + [d], mark, stream)
  {
  }

  lemma StreamGrows(trace: seq<OnDisk>, mark: nat, stream: seq<byte>, more: seq<byte>)
    requires CrashSafe(trace, mark, stream)
    ensures CrashSafe(trace, mark, stream + more)
  {
    forall t | mark <= t < |trace|
      ensures PublishedPrefix(trace[t], stream + more)
    {
      assert PublishedPrefix(trace[t], stream);
    }
  }

  /** Some state from number n on holds the data under the size given. */
  ghost predicate DataUnder(trace: seq<OnDisk>, n: nat, size: nat, off: nat, data: seq<byte>) {
    exists t: nat :: n <= t < |trace| && Holds(trace[t], size, off, data)
  }

  predicate Holds(d: OnDisk, size: nat, off: nat, data: seq<byte>) {
    d.size == size && off + |data| <= |d.data| && d.data[off..off + |data|] == data
  }

  /** A first byte has landed under the size that was there before. */
  predicate Torn(before: OnDisk, now: OnDisk, off: nat, b: byte) {
    now.size == before.size && |before.data| <= |now.data| && off < |now.data| && now.data[off] == b
  }

  /** What can be seen of a sink and its ring from outside. */
  datatype Look = Look(total: nat, cursor: nat, attached: bool)

  /** A flush met an overrun: bytes had been overwritten before it looked, or
      were while it worked and it read on behind them. */
  predicate Overran(before: Look, after: Look, size: nat) {
    && before.attached
    && (before.total > before.cursor + size || (after.cursor > before.cursor && after.total > before.cursor + size))
  }

  predicate Follows(step: Step, before: Look, after: Look) {
    match step
    case Log(_) => after == before.(total := before.total + 1)
    case Flush(noise) =>
      if before.attached then after.total == before.total + |noise| && after.cursor >= before.cursor else after == before
  }

  /** The run as seen from outside. */
  predicate Observed(steps: seq<Step>, looks: seq<Look>) {
    |looks| == |steps| + 1 && forall i :: 0 <= i < |steps| ==> Follows(steps[i], looks[i], looks[i + 1])
  }

  /** No flush of the run met an overrun. */
  predicate NoOverrun(steps: seq<Step>, looks: seq<Look>, size: nat)
    requires |looks| == |steps| + 1
  {
    forall i :: 0 <= i < |steps| ==> steps[i].Flush? ==> !Overran(looks[i], looks[i + 1], size)
  }

  class Sink {
    const ring: Ring
    const file: LogFile
    const capacity: nat
    const buffer: array<byte>
    const notes: Notes
    var written: nat
    var cursor: nat
    var writeFailures: nat
    var attached: bool

    /** The bytes meant to be in the file, and what they stand for. */
    ghost var stream: seq<byte>
    ghost var segs: seq<Segment>
    /** Where the log was picked up, and how many bytes were overrun since. */
    ghost const base: nat
    ghost var lost: nat
    /** The file states since the first size this sink published, or since it
        was attached to an empty file. */
    ghost var published: bool
    ghost var mark: nat

    ghost predicate Valid()
      reads this, ring, ring.buf, file, buffer
    {
      && ring.Valid() && file.Valid()
      && buffer.Length == CHUNK && buffer != ring.buf
      && Accounted(notes, base, cursor, lost, segs, stream, ring.history)
      && Appended(written, capacity, stream, file.disk.data)
      && (published ==> CrashSafe(file.trace, mark, stream))
    }

    constructor (ring: Ring, file: LogFile, capacity: nat)
      requires ring.Valid() && file.Valid()
      ensures Valid() && fresh(buffer) && this.ring == ring && this.file == file && this.capacity == capacity && notes == EnglishNotes()
      ensures attached && stream == [] && segs == [] && lost == 0 && written == writeFailures == 0 && base == cursor == ring.FirstCursor()
      ensures (published <==> file.disk.size == 0) && (published ==> mark == |file.trace| - 1)
    {
      this.ring, this.file, this.capacity := ring, file, capacity;
      this.buffer := new byte[CHUNK];
      this.notes := EnglishNotes();
      this.written, this.writeFailures, this.attached := 0, 0, true;
      this.cursor := ring.FirstCursor();
      this.base := ring.FirstCursor();
      this.stream, this.segs, this.lost := [], [], 0;
      this.published, this.mark := file.disk.size == 0, |file.trace| - 1;
    }

    /** The file side of the invariant. */
    ghost predicate FileValid()
      reads this, file
    {
      && file.Valid()
      && Appended(written, capacity, stream, file.disk.data)
      && (published ==> CrashSafe(file.trace, mark, stream))
    }

    /** The request writes something and reports a failure. */
    ghost predicate Tears(request: nat)
    {
      file.fate(request).done > 0 && !file.fate(request).reported
    }

    /** Data first; the size follows only when the data is on disk, and a size
        that fails to reach the disk is made good by the next one. */
    method Append(data: seq<byte>) returns (ok: bool)
      requires FileValid() && written + |data| <= capacity
      modifies `written, `stream, `published, `mark, file
      ensures FileValid()
      ensures stream == if ok then old(stream) + data else old(stream)
      ensures file.failures == old(file.failures) + (if ok then 0 else 1)
      ensures (ok <==> Lands(file.fate(old(file.requests)), |data|)) && file.requests == old(file.requests) + (if ok then 2 else 1)
      ensures ok ==> DataUnder(file.trace, |old(file.trace)| - 1, old(file.disk.size), old(written), data)
      ensures Tears(old(file.requests)) && |data| > 0 ==> !ok && Torn(old(file.disk), file.disk, old(written), data[0])
      ensures ok && file.fate(old(file.requests) + 1).done > 0 ==> published && file.disk.size == written
      ensures !ok ==> file.disk.size == old(file.disk.size)
      ensures old(published) ==> published && mark == old(mark)
      ensures old(file.trace) <= file.trace
    {
      ok := AppendData(data);
      if ok {
        ghost var before := file.trace;
        assert Holds(before[|before| - 1], old(file.disk.size), old(written), data);
        Publish();
        assert file.trace[|before| - 1] == before[|before| - 1];
      }
    }

    /** The data alone. */
    method AppendData(data: seq<byte>) returns (ok: bool)
      requires FileValid() && written + |data| <= capacity
      modifies `written, `stream, file
      ensures FileValid() && file.disk.size == old(file.disk.size)
      ensures stream == (if ok then old(stream) + data else old(stream)) && written == |stream|
      ensures file.failures == old(file.failures) + (if ok then 0 else 1)
      ensures (ok <==> Lands(file.fate(old(file.requests)), |data|)) && file.requests == old(file.requests) + 1
      ensures Tears(old(file.requests)) && |data| > 0 ==> !ok && Torn(old(file.disk), file.disk, old(written), data[0])
      ensures old(file.trace) <= file.trace
    {
      ghost var trace := file.trace;
      ok := file.WriteAt(written, data);
      if published {
        WriteKeepsCrashSafe(trace, file.trace, mark, stream, |data|);
      }
      if ok {
        if published {
          StreamGrows(file.trace, mark, stream, data);
        }
        stream := stream + data;
        written := written + |data|;
      }
    }

    /** The file shows all of the stream. */
    ghost predicate Current()
      reads this, file
    {
      stream == [] || (published && file.disk.size == |stream|)
    }

    /** Of each of these requests something lands. */
    ghost predicate NoneLost(first: nat, end: nat)
    {
      forall r :: first <= r < end ==> file.fate(r).done > 0
    }

    /** Publishes the length of what is on disk. */
    method Publish()
      requires FileValid()
      modifies `published, `mark, file
      ensures FileValid() && file.failures == old(file.failures) && file.requests == old(file.requests) + 1
      ensures file.fate(old(file.requests)).done > 0 ==> published && file.disk.size == written
      ensures old(published) ==> published && mark == old(mark)
      ensures old(file.trace) <= file.trace
    {
      ghost var before := file.trace;
      var sized, landed := file.PublishSize(written);
      if landed {
        if published {
          PublishKeepsCrashSafe(before, mark, stream, file.disk);
        } else {
          published, mark := true, |before|;
        }
      }
    }

    ghost predicate Account(at: nat, missed: nat)
      reads this, ring
    {
      Accounted(notes, base, at, missed, segs, stream, ring.history)
    }

    /** A full file gets a note if there is room for it. */
    method NoteFull()
      requires FileValid() && Account(cursor, lost)
      modifies `written, `stream, `published, `mark, `segs, file
      ensures FileValid() && Account(cursor, lost) && file.failures >= old(file.failures)
      ensures var noted := old(written) + |notes.full| <= capacity && Lands(file.fate(old(file.requests)), |notes.full|);
        && segs == (if noted then old(segs) + [Full] else old(segs)) && stream == old(stream) + (if noted then notes.full else [])
      ensures file.requests >= old(file.requests) && (old(Current()) && NoneLost(old(file.requests), file.requests) ==> Current())
      ensures old(published) ==> published && mark == old(mark)
      ensures old(file.trace) <= file.trace && old(stream) <= stream
    {
      var marker := notes.full;
      if written + |marker| <= capacity {
        AccountNote(notes, base, cursor, lost, segs, stream, ring.history, Full);
        var noted := Append(marker);
        if noted {
          segs := segs + [Full];
        }
      }
    }

    /** Appends one piece, or a note that the file is full. */
    method WriteBytes(data: seq<byte>, ghost g: Segment) returns (ok: bool)
      requires FileValid() && Account(cursor, lost) && Bytes(notes, g, ring.history) == data
      requires g.Data? ==> cursor <= g.from < g.to <= |ring.history|
      modifies `written, `stream, `published, `mark, `segs, file
      ensures FileValid() && file.failures >= old(file.failures)
      ensures ok <==> data == [] || (old(written) + |data| <= capacity && file.failures == old(file.failures))
      ensures data != [] && old(written) + |data| <= capacity ==>
        (ok <==> Lands(file.fate(old(file.requests)), |data|)) && segs == (if ok then old(segs) + [g] else old(segs))
        && file.requests == old(file.requests) + (if ok then 2 else 1) && written == old(written) + (if ok then |data| else 0)
      ensures file.requests >= old(file.requests) && (old(Current()) && NoneLost(old(file.requests), file.requests) ==> Current())
      ensures data != [] && old(written) + |data| > capacity ==>
        var noted := old(written) + |notes.full| <= capacity && Lands(file.fate(old(file.requests)), |notes.full|);
        && segs == (if noted then old(segs) + [Full] else old(segs)) && stream == old(stream) + (if noted then notes.full else [])
      ensures Tears(old(file.requests)) && data != [] && old(written) + |data| <= capacity ==>
        !ok && Torn(old(file.disk), file.disk, old(written), data[0])
      ensures if ok && g.Data? then Account(g.to, lost + (g.from - cursor)) else Account(cursor, lost)
      ensures old(published) ==> published && mark == old(mark)
      ensures old(file.trace) <= file.trace && old(stream) <= stream
    {
      if |data| == 0 {
        return true;
      }
      if written + |data| > capacity {
        NoteFull();
        return false;
      }
      ok := AppendPiece(data, g);
    }

    method AppendPiece(data: seq<byte>, ghost g: Segment) returns (ok: bool)
      requires FileValid() && Account(cursor, lost) && Bytes(notes, g, ring.history) == data && written + |data| <= capacity
      requires g.Data? ==> cursor <= g.from < g.to <= |ring.history|
      modifies `written, `stream, `published, `mark, `segs, file
      ensures FileValid() && file.failures == old(file.failures) + (if ok then 0 else 1)
      ensures (ok <==> Lands(file.fate(old(file.requests)), |data|)) && segs == (if ok then old(segs) + [g] else old(segs))
      ensures file.requests == old(file.requests) + (if ok then 2 else 1) && written == old(written) + (if ok then |data| else 0)
      ensures old(Current()) && NoneLost(old(file.requests), file.requests) ==> Current()
      ensures Tears(old(file.requests)) && data != [] ==> !ok && Torn(old(file.disk), file.disk, old(written), data[0])
      ensures if ok && g.Data? then Account(g.to, lost + (g.from - cursor)) else Account(cursor, lost)
      ensures old(published) ==> published && mark == old(mark)
      ensures old(file.trace) <= file.trace && old(stream) <= stream
    {
      if g.Data? {
        AccountChunk(notes, base, cursor, lost, segs, stream, ring.history, g.from, g.to);
      } else {
        AccountNote(notes, base, cursor, lost, segs, stream, ring.history, g);
      }
      ok := Append(data);
      if ok {
        segs := segs + [g];
      }
    }

    /** There are bytes lost, room for a note that says so, and a disk that
        does not take it. */
    ghost predicate NoteFails(at: nat, first: nat, used: nat, request: nat)
      reads file
    {
      at < first && var note := notes.dropped(first - at);
      note != [] && used + |note| <= capacity && !Lands(file.fate(request), |note|)
    }

    /** The ring has overwritten bytes this sink had not read: leave a note,
        if the note can be written, and move on. */
    method NoteOverrun(first: nat)
      requires Valid() && first == ring.FirstCursor()
      modifies `written, `stream, `published, `mark, `segs, `lost, `cursor, file
      ensures Valid() && cursor == Max(old(cursor), first)
      ensures lost == old(lost) + (cursor - old(cursor)) && file.failures >= old(file.failures)
      ensures NoteFails(old(cursor), first, old(written), old(file.requests)) ==>
        segs == old(segs) && written == old(written) && file.requests == old(file.requests) + 1
      ensures file.requests >= old(file.requests) && (old(Current()) && NoneLost(old(file.requests), file.requests) ==> Current())
      ensures old(cursor) >= first ==> segs == old(segs) && written == old(written) && file.requests == old(file.requests)
      ensures old(published) ==> published && mark == old(mark)
      ensures old(file.trace) <= file.trace && old(stream) <= stream
    {
      if cursor < first {
        WriteNote(first - cursor);
        lost := lost + (first - cursor);
        cursor := first;
      }
    }

    method WriteNote(count: nat)
      requires FileValid() && Account(cursor, lost)
      modifies `written, `stream, `published, `mark, `segs, file
      ensures FileValid() && Account(cursor, lost) && file.failures >= old(file.failures)
      ensures var note := notes.dropped(count);
        note != [] && old(written) + |note| <= capacity && !Lands(file.fate(old(file.requests)), |note|) ==>
          segs == old(segs) && written == old(written) && file.requests == old(file.requests) + 1
      ensures file.requests >= old(file.requests) && (old(Current()) && NoneLost(old(file.requests), file.requests) ==> Current())
      ensures old(published) ==> published && mark == old(mark)
      ensures old(file.trace) <= file.trace && old(stream) <= stream
    {
      var noted := WriteBytes(notes.dropped(count), Dropped(count));
    }

    /** Other code logs while this sink is at work. */
    method LogNoise(noise: seq<byte>)
      requires Valid()
      modifies ring, ring.buf
      ensures Valid() && ring.history == old(ring.history) + noise
    {
      FlattenStable(notes, segs, ring.history, noise, base);
      ring.LogBytes(noise);
    }

    /** Moves one chunk from the ring to the file. */
    method CopyChunk() returns (ok: bool, more: bool)
      requires Valid()
      modifies `written, `stream, `published, `mark, `segs, `lost, `cursor, file, buffer
      ensures Valid() && cursor >= old(cursor)
      ensures lost >= old(lost) && (lost > old(lost) <==> cursor > old(cursor) && ring.FirstCursor() > old(cursor))
      ensures cursor > old(cursor) ==>
        cursor > Max(old(cursor), ring.FirstCursor()) && segs == old(segs) + [Data(Max(old(cursor), ring.FirstCursor()), cursor)]
      ensures Lands(file.fate(old(file.requests)), CHUNK) && old(written) + CHUNK <= capacity ==> ok
      ensures var from := Max(old(cursor), ring.FirstCursor());
        from < |ring.history| && Tears(old(file.requests)) && old(written) + Min(CHUNK, |ring.history| - from) <= capacity ==>
        !ok && Torn(old(file.disk), file.disk, old(written), ring.history[from]) && stream == old(stream)
      ensures ok && !more ==> cursor == |ring.history|
      ensures ok && more ==> cursor > old(cursor)
      ensures file.failures >= old(file.failures)
      ensures !ok ==> file.failures > old(file.failures) || written + CHUNK > capacity
      ensures file.requests >= old(file.requests) && (old(Current()) && NoneLost(old(file.requests), file.requests) ==> Current())
      ensures ok && cursor == old(cursor) ==> segs == old(segs)
      ensures old(published) ==> published && mark == old(mark)
      ensures old(file.trace) <= file.trace && old(stream) <= stream
    {
      var data, next := NextChunk();
      if |data| == 0 {
        return true, false;
      }
      ok := TakeChunk(data, next - |data|, next);
      return ok, true;
    }

    /** What the buffer holds after one read from the ring. */
    method NextChunk() returns (data: seq<byte>, next: nat)
      requires Valid()
      modifies buffer
      ensures Valid() && |data| <= CHUNK
      ensures var from := Max(cursor, ring.FirstCursor());
        if from < |ring.history|
        then data != [] && from < next == from + |data| <= |ring.history| && data == ring.history[from..next]
        else data == [] && cursor == |ring.history|
    {
      var count;
      count, next := ring.ReadChunk(cursor, buffer);
      data := buffer[..count];
    }

    /** Writes the chunk of the log from `from` to `next`; what lies between
        the cursor and the chunk is lost. */
    method TakeChunk(data: seq<byte>, ghost from: nat, next: nat) returns (ok: bool)
      requires Valid() && |data| <= CHUNK && cursor <= from < next <= |ring.history| && data == ring.history[from..next]
      modifies `written, `stream, `published, `mark, `segs, `lost, `cursor, file
      ensures Valid() && file.failures >= old(file.failures)
      ensures ok ==> cursor == next && segs == old(segs) + [Data(from, next)] && lost == old(lost) + (from - old(cursor))
      ensures !ok ==> cursor == old(cursor) && lost == old(lost) && (file.failures > old(file.failures) || written + CHUNK > capacity)
      ensures Lands(file.fate(old(file.requests)), CHUNK) && old(written) + CHUNK <= capacity ==> ok
      ensures Tears(old(file.requests)) && old(written) + |data| <= capacity ==>
        !ok && Torn(old(file.disk), file.disk, old(written), data[0]) && stream == old(stream)
      ensures file.requests >= old(file.requests) && (old(Current()) && NoneLost(old(file.requests), file.requests) ==> Current())
      ensures old(published) ==> published && mark == old(mark)
      ensures old(file.trace) <= file.trace && old(stream) <= stream
    {
      ok := WriteBytes(data, Data(from, next));
      if ok {
        lost := lost + (from - cursor);
        cursor := next;
      }
    }

    /** At most one chunk per call. `noise` is what other code logs between
        this call's look at the ring and its read. */
    method WritePending(noise: seq<byte>) returns (ok: bool, more: bool)
      requires Valid()
      modifies `written, `stream, `published, `mark, `segs, `lost, `cursor, file, buffer, ring, ring.buf
      ensures Valid() && ring.history == old(ring.history) + noise && cursor >= old(cursor)
      ensures lost >= old(lost)
      ensures lost > old(lost) <==> Overran(Look(|old(ring.history)|, old(cursor), true), Look(|ring.history|, cursor, true), ring.size)
      ensures ok && !more ==> cursor == |ring.history|
      ensures ok && more ==> cursor > old(cursor)
      ensures file.failures >= old(file.failures)
      ensures !ok ==> file.failures > old(file.failures) || written + CHUNK > capacity
      ensures file.requests >= old(file.requests) && (old(Current()) && NoneLost(old(file.requests), file.requests) ==> Current())
      ensures ok && ring.FirstCursor() <= old(cursor) ==> segs == Longer(old(segs), old(cursor), cursor)
      ensures ring.FirstCursor() <= old(cursor) && Lands(file.fate(old(file.requests)), CHUNK) && old(written) + CHUNK <= capacity ==> ok
      ensures old(published) ==> published && mark == old(mark)
      ensures old(file.trace) <= file.trace && old(stream) <= stream
    {
      SkipOverrun(noise);
      ok, more := CopyChunk();
    }

    /** The look at the ring, and what is logged after it. */
    method SkipOverrun(noise: seq<byte>)
      requires Valid()
      modifies `written, `stream, `published, `mark, `segs, `lost, `cursor, file, ring, ring.buf
      ensures Valid() && ring.history == old(ring.history) + noise && cursor == Max(old(cursor), old(ring.FirstCursor()))
      ensures lost == old(lost) + (cursor - old(cursor)) && file.failures >= old(file.failures)
      ensures file.requests >= old(file.requests) && (old(Current()) && NoneLost(old(file.requests), file.requests) ==> Current())
      ensures old(cursor) >= old(ring.FirstCursor()) ==> segs == old(segs) && written == old(written) && file.requests == old(file.requests)
      ensures old(published) ==> published && mark == old(mark)
      ensures old(file.trace) <= file.trace && old(stream) <= stream
    {
      var first := ring.FirstCursor();
      NoteOverrun(first);
      LogNoise(noise);
    }

    /** While writes succeed and there is room, every call moves the cursor on
        or finds nothing left. A failed chunk is retried by later calls; after
        three failures in a row the sink is dropped. */
    method Flush(noise: seq<byte>) returns (ghost ok: bool)
      requires Valid()
      modifies this, file, buffer, ring, ring.buf
      ensures Valid() && cursor >= old(cursor) && attached == (old(attached) && writeFailures < MAX_WRITE_FAILURES)
      ensures !old(attached) ==> writeFailures == old(writeFailures) && cursor == old(cursor) && file.trace == old(file.trace)
      ensures old(attached) ==> writeFailures == if ok then 0 else old(writeFailures) + 1
      ensures ok ==> old(attached) && (cursor == |ring.history| || cursor > old(cursor))
      ensures old(attached) && file.failures == old(file.failures) && written + CHUNK <= capacity ==> ok
      ensures ring.history == if old(attached) then old(ring.history) + noise else old(ring.history)
      ensures lost >= old(lost)
      ensures lost > old(lost) <==> Overran(Look(|old(ring.history)|, old(cursor), old(attached)), Look(|ring.history|, cursor, attached), ring.size)
      ensures file.requests >= old(file.requests) && (old(Current()) && NoneLost(old(file.requests), file.requests) ==> Current())
      ensures ok && ring.FirstCursor() <= old(cursor) ==> segs == Longer(old(segs), old(cursor), cursor)
      ensures old(attached) && ring.FirstCursor() <= old(cursor) && Lands(file.fate(old(file.requests)), CHUNK) && old(written) + CHUNK <= capacity ==> ok
      ensures old(published) ==> published && mark == old(mark)
      ensures old(file.trace) <= file.trace && old(stream) <= stream
    {
      if !attached {
        return false;
      }
      var written, more := WritePending(noise);
      ok := written;
      if !written {
        writeFailures := writeFailures + 1;
        if writeFailures >= MAX_WRITE_FAILURES {
          attached := false;
        }
      } else {
        writeFailures := 0;
      }
    }

    /** Nothing has been lost, and no note was needed. */
    ghost predicate Whole()
      reads this, ring, file
    {
      attached && lost == 0 && NoMarkers(segs) && Current() && ring.FirstCursor() <= cursor
      && base <= cursor <= |ring.history| && stream == ring.history[base..cursor]
    }

    /** A flush on a disk that works, with room in the file. */
    method FlushOn()
      requires Valid() && Whole() && cursor < |ring.history| && capacity >= |ring.history| - base + CHUNK
      requires forall r :: Lands(file.fate(r), CHUNK)
      modifies this, file, buffer, ring, ring.buf
      ensures Valid() && Whole() && cursor > old(cursor) && ring.history == old(ring.history)
    {
      ghost var before, from := segs, cursor;
      assert Lands(file.fate(file.requests), CHUNK);
      ghost var ok := Flush([]);
      assert ring.history + [] == ring.history;
      StillWhole(notes, base, from, cursor, lost, before, segs, stream, ring.history);
    }

    lemma StillWhole(notes: Notes, base: nat, from: nat, end: nat, lost: nat, before: seq<Segment>, segs: seq<Segment>, stream: seq<byte>, history: seq<byte>)
      requires Accounted(notes, base, end, lost, segs, stream, history) && lost == 0
      requires NoMarkers(before) && segs == Longer(before, from, end)
      ensures NoMarkers(segs) && base <= end <= |history| && stream == history[base..end]
    {
      WholeIffNothingLost(notes, base, end, lost, segs, stream, history);
    }

    ghost function Seen(): Look
      reads this, ring
    {
      Look(|ring.history|, cursor, attached)
    }

    /** Any run of log writes and flushes with any write failures: the disk
        states passed through, hence every state a power cut can leave, are
        all in `file.trace`, and from the first publication on, or from the
        start if the file was found empty, each of them publishes a prefix of
        the final stream. Bytes are lost exactly when some flush meets an
        overrun; a file without notes is then, and only then, not one
        contiguous piece of the log. */
    method RunSteps(steps: seq<Step>) returns (ghost looks: seq<Look>)
      requires Valid() && (attached <==> writeFailures < MAX_WRITE_FAILURES)
      modifies this, file, buffer, ring, ring.buf
      ensures Valid() && (attached <==> writeFailures < MAX_WRITE_FAILURES)
      ensures old(file.trace) <= file.trace && old(stream) <= stream
      ensures published ==> forall t :: mark <= t < |file.trace| ==> PublishedPrefix(file.trace[t], stream)
      ensures file.requests >= old(file.requests) && (old(Current()) && NoneLost(old(file.requests), file.requests) ==> Current())
      ensures old(published) ==> published && mark == old(mark)
      ensures Observed(steps, looks) && looks[0] == old(Seen()) && looks[|steps|] == Seen()
      ensures lost == old(lost) <==> NoOverrun(steps, looks, ring.size)
      ensures old(lost) == 0 && NoMarkers(segs) ==>
        (stream == ring.history[base..cursor] <==> NoOverrun(steps, looks, ring.size))
    {
      looks := [Seen()];
      for i := 0 to |steps|
        invariant Valid() && (attached <==> writeFailures < MAX_WRITE_FAILURES)
        invariant old(file.trace) <= file.trace && old(stream) <= stream
        invariant file.requests >= old(file.requests) && (old(Current()) && NoneLost(old(file.requests), file.requests) ==> Current())
        invariant old(published) ==> published && mark == old(mark)
        invariant Observed(steps[..i], looks) && looks[0] == old(Seen()) && looks[i] == Seen()
        invariant lost >= old(lost) && (lost == old(lost) <==> NoOverrun(steps[..i], looks, ring.size))
      {
        ghost var before, was := Seen(), lost;
        TakeStep(steps[i]);
        OneMore(steps, i, looks, Seen(), ring.size);
        looks := looks + [Seen()];
      }
      assert steps[..|steps|] == steps;
      if NoMarkers(segs) {
        WholeIffNothingLost(notes, base, cursor, lost, segs, stream, ring.history);
      }
    }

    method TakeStep(step: Step)
      requires Valid() && (attached <==> writeFailures < MAX_WRITE_FAILURES)
      modifies this, file, buffer, ring, ring.buf
      ensures Valid() && (attached <==> writeFailures < MAX_WRITE_FAILURES)
      ensures old(file.trace) <= file.trace && old(stream) <= stream
      ensures file.requests >= old(file.requests) && (old(Current()) && NoneLost(old(file.requests), file.requests) ==> Current())
      ensures old(published) ==> published && mark == old(mark)
      ensures Follows(step, old(Seen()), Seen())
      ensures lost >= old(lost) && (lost > old(lost) <==> step.Flush? && Overran(old(Seen()), Seen(), ring.size))
    {
      match step
      case Log(b) => LogNoise([b]);
      case Flush(noise) => var ok := Flush(noise);
    }
  }

  lemma OneMore(steps: seq<Step>, i: nat, looks: seq<Look>, next: Look, size: nat)
    requires i < |steps| && Observed(steps[..i], looks) && Follows(steps[i], looks[i], next)
    ensures Observed(steps[..i + 1], looks + [next])
    ensures NoOverrun(steps[..i + 1], looks + [next], size) <==>
      NoOverrun(steps[..i], looks, size) && (steps[i].Flush? ==> !Overran(looks[i], next, size))
  {
    var more := looks + [next];
    assert steps[..i + 1][i] == steps[i] && more[i] == looks[i] && more[i + 1] == next;
    if NoOverrun(steps[..i + 1], more, size) {
      forall k | 0 <= k < i && steps[..i][k].Flush? ensures !Overran(looks[k], looks[k + 1], size) {
        assert steps[..i + 1][k].Flush? && more[k] == looks[k] && more[k + 1] == looks[k + 1];
      }
    }
  }

  /** A byte is logged, or the log is flushed while `noise` is being logged. */
  datatype Step = Log(b: byte) | Flush(noise: seq<byte>)

  /** A file without notes is one contiguous piece of the log, up to the
      cursor, exactly when nothing was lost to an overrun. (A note about a
      loss can itself fail to be written, so the absence of notes alone does
      not show that the log is whole.) */
  lemma WholeIffNothingLost(notes: Notes, base: nat, cursor: nat, lost: nat, segs: seq<Segment>, stream: seq<byte>, history: seq<byte>)
    requires Accounted(notes, base, cursor, lost, segs, stream, history) && NoMarkers(segs)
    ensures stream == history[base..cursor] <==> lost == 0
  {
    StoredIsLength(notes, segs, history, base);
    if lost == 0 {
      Contiguous(notes, segs, history, base, cursor);
    }
  }

  /** Bytes published by one state stay what they were in every later one. */
  lemma PublishedForever(trace: seq<OnDisk>, mark: nat, stream: seq<byte>, t: nat, t': nat)
    requires CrashSafe(trace, mark, stream) && mark <= t < t' < |trace|
    ensures trace[t].size <= trace[t'].size && trace[t'].data[..trace[t].size] == trace[t].data[..trace[t].size]
  {
    assert PublishedPrefix(trace[t], stream) && PublishedPrefix(trace[t'], stream);
    assert trace[t'].data[..trace[t].size] == trace[t'].data[..trace[t'].size][..trace[t].size];
  }

  /** On a file found empty every state of every run, from attaching on,
      publishes a prefix of what the sink has written. */
  method AttachAndRun(ring: Ring, found: OnDisk, fate: nat -> Fate, capacity: nat, steps: seq<Step>) returns (sink: Sink)
    requires ring.Valid()
    modifies ring, ring.buf
    ensures sink.Valid() && sink.file.trace[0] == found
    ensures found.size == 0 ==> forall t :: 0 <= t < |sink.file.trace| ==> PublishedPrefix(sink.file.trace[t], sink.stream)
    ensures (found.size == 0 || sink.stream != []) && sink.NoneLost(0, sink.file.requests) ==> var d := sink.file.disk;
      d.size == |sink.stream| <= |d.data| && d.data[..d.size] == sink.stream
  {
    sink := Attach(ring, found, fate, capacity);
    ghost var looks := sink.RunSteps(steps);
  }

  /** On a disk that works, with room for it, all of the log that the ring
      still holds gets into the file and is published. */
  method SaveLog(ring: Ring, found: OnDisk, fate: nat -> Fate, capacity: nat) returns (sink: Sink)
    requires ring.Valid() && capacity >= |ring.history| - ring.FirstCursor() + CHUNK
    requires forall r :: Lands(fate(r), CHUNK)
    modifies ring, ring.buf
    ensures ring.Valid() && ring.history == old(ring.history)
    ensures var d, log := sink.file.disk, ring.history[ring.FirstCursor()..];
      log != [] ==> d.size == |log| <= |d.data| && d.data[..d.size] == log
  {
    sink := Attach(ring, found, fate, capacity);
    while sink.cursor < ring.total
      invariant sink.Valid() && sink.ring == ring && sink.attached && fresh(sink) && fresh(sink.file) && fresh(sink.buffer)
      invariant ring.history == old(ring.history) && sink.base == ring.FirstCursor() && sink.file.fate == fate && sink.capacity == capacity
      invariant sink.Whole()
      decreases ring.total - sink.cursor
    {
      sink.FlushOn();
    }
  }

  /** On a file found with contents it does not hold: whatever these are, the
      first chunk of any log that starts with another byte can be torn off
      behind that byte. The file then has its old size over a first byte that
      is not its own, and the new log does not account for it either. */
  method OldFileOverwritten(ring: Ring, found: OnDisk, capacity: nat) returns (sink: Sink)
    requires ring.Valid() && ring.total > 0 && capacity >= Min(CHUNK, ring.total - ring.FirstCursor())
    requires 0 < found.size <= |found.data| && ring.history[ring.FirstCursor()] != found.data[0]
    ensures sink.Valid() && sink.file.trace[0] == found && sink.ring == ring && sink.capacity == capacity
    ensures var left := sink.file.disk;
      left.size == found.size <= |left.data| && left.data[0] != found.data[0] && !PublishedPrefix(left, sink.stream)
  {
    sink := Attach(ring, found, _ => Fate(1, false), capacity);
    var ok, more := sink.CopyChunk();
    TornIsNeither(found, sink.file.disk, ring.history[ring.FirstCursor()], sink.stream);
  }

  lemma TornIsNeither(found: OnDisk, left: OnDisk, b: byte, stream: seq<byte>)
    requires Torn(found, left, 0, b) && 0 < found.size <= |found.data| && b != found.data[0] && stream == []
    ensures left.data[0] != found.data[0] && !PublishedPrefix(left, stream)
  {
  }

  method Attach(ring: Ring, found: OnDisk, fate: nat -> Fate, capacity: nat) returns (sink: Sink)
    requires ring.Valid()
    ensures sink.Valid() && fresh(sink) && fresh(sink.file) && fresh(sink.buffer) && sink.ring == ring && sink.capacity == capacity
    ensures sink.file.disk == found && sink.file.trace == [found] && sink.file.fate == fate && sink.file.requests == 0
    ensures (sink.published <==> found.size == 0) && (sink.published ==> sink.mark == 0)
    ensures sink.stream == [] && sink.segs == [] && sink.lost == 0 && sink.written == 0 && sink.base == sink.cursor == ring.FirstCursor() && sink.attached && sink.writeFailures == 0
  {
    var file := new LogFile(found, fate);
    sink := new Sink(ring, file, capacity);
  }

  /** Runs whose file has no note and a gap: a ring of any size is filled and
      one byte more is logged, and the write of the note about the lost one
      fails. */
  method GapWithoutNote(size: nat, noise: seq<byte>, capacity: nat) returns (sink: Sink)
    requires size > 0 && |noise| == size + 1 && capacity >= CHUNK
    ensures sink.Valid() && sink.ring.size == size && sink.ring.history == noise && sink.capacity == capacity
    ensures sink.base == 0 && NoMarkers(sink.segs) && sink.lost == 1
    ensures 1 < sink.cursor <= |noise| && sink.stream == noise[1..sink.cursor] != noise[sink.base..sink.cursor]
  {
    sink := NoteRefused(size, noise, capacity);
    var ok, more := sink.CopyChunk();
    OnlyRest(sink.notes, sink.cursor, sink.lost, sink.segs, sink.stream, noise);
  }

  lemma OnlyRest(notes: Notes, cursor: nat, lost: nat, segs: seq<Segment>, stream: seq<byte>, history: seq<byte>)
    requires Accounted(notes, 0, cursor, lost, segs, stream, history) && segs == [Data(1, cursor)]
    ensures NoMarkers(segs) && lost == 1 && 1 < cursor <= |history| && stream == history[1..cursor] != history[0..cursor]
  {
    LastData(notes, segs, history);
    assert segs[..0] == [];
    assert |history[1..cursor]| != |history[0..cursor]|;
  }

  /** The same up to the note. */
  method NoteRefused(size: nat, noise: seq<byte>, capacity: nat) returns (sink: Sink)
    requires size > 0 && |noise| == size + 1 && capacity >= CHUNK
    ensures sink.Valid() && fresh(sink) && fresh(sink.file) && fresh(sink.buffer)
    ensures sink.ring.history == noise && sink.ring.size == size && sink.capacity == capacity
    ensures sink.base == sink.written == 0 && sink.cursor == 1 && sink.segs == []
    ensures Lands(sink.file.fate(sink.file.requests), CHUNK)
  {
    sink := OneBehind(size, noise, capacity);
    sink.NoteOverrun(1);
  }

  /** A sink one byte behind its ring, over a disk that refuses its first
      request and no other. */
  method OneBehind(size: nat, noise: seq<byte>, capacity: nat) returns (sink: Sink)
    requires size > 0 && |noise| == size + 1 && capacity >= CHUNK
    ensures sink.Valid() && fresh(sink) && fresh(sink.ring) && fresh(sink.ring.buf) && fresh(sink.file) && fresh(sink.buffer)
    ensures sink.ring.history == noise && sink.ring.size == size && sink.base == sink.cursor == sink.written == 0
    ensures sink.segs == [] && sink.lost == 0 && sink.capacity == capacity
    ensures sink.file.requests == 0 && sink.NoteFails(0, 1, 0, 0) && sink.file.fate(1) == Fate(CHUNK, true)
  {
    var ring := new Ring(size);
    var file := new LogFile(OnDisk([], 0), n => if n == 0 then Fate(0, false) else Fate(CHUNK, true));
    sink := new Sink(ring, file, capacity);
    sink.LogNoise(noise);
    OneDropped();
  }

  lemma OneDropped()
    ensures 0 < |EnglishNotes().dropped(1)| <= CHUNK
  {
    assert |EnglishNotes().dropped(1)| == 7 + |Decimal(1)| + 41;
    assert Decimal(1) == "1";
  }
}
