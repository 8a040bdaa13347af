/** Byte-addressed I/O over NVMe block commands (kernel/src/drivers/nvme.rs):
    requests are cut into single-page commands, and requests that are not
    block-aligned go through a read-modify-write of the blocks they touch. */
module NvmeIo {
  import opened Arith
  import opened FlatWrites
  import NvmeQueue
  import opened Wire

  /** One command moves at most one page: only PRP1 is ever filled in. */
  const MAX_XFER: nat := 4096

  // Completion status: bit 0 phase, bits 1..8 status code, bits 9..11 its type.

  function StatusCode(status: u16): nat { (status / 2) % 0x100 }
  function StatusType(status: u16): nat { (status / 0x200) % 8 }

  /** A status word put together from its parts. */
  lemma StatusParts(phase: nat, code: nat, kind: nat, rest: nat)
    requires phase < 2 && code < 0x100 && kind < 8 && rest < 0x10
    ensures var status := phase + 2 * code + 0x200 * kind + 0x1000 * rest;
      status < 0x1_0000 && StatusCode(status) == code && StatusType(status) == kind
  {
    var status := phase + 2 * code + 0x200 * kind + 0x1000 * rest;
    assert status / 2 == code + 0x100 * (kind + 8 * rest) && status / 0x200 == kind + 8 * rest;
  }

  /** The driver's verdict keeps only seven of the eight status-code bits and
      none of the type. */
  predicate DriverAccepts(status: u16) {
    (status / 2) % 0x80 == 0
  }

  predicate Succeeded(status: u16) {
    StatusCode(status) == 0 && StatusType(status) == 0
  }

  /** The failures the driver takes for success: status code 80h of any type
      (LBA Out of Range, Write Fault) and code 0 of a type other than generic. */
  predicate Misread(status: u16) {
    StatusCode(status) == 0x80 || (StatusCode(status) == 0 && StatusType(status) != 0)
  }

  lemma SevenOfEight(n: nat)
    ensures n % 0x80 == 0 <==> n % 0x100 == 0 || n % 0x100 == 0x80
  {
    assert n == n / 0x80 * 0x80 + n % 0x80;
  }

  lemma VerdictExact(status: u16)
    ensures DriverAccepts(status) <==> Succeeded(status) || Misread(status)
    ensures !(Succeeded(status) && Misread(status))
  {
    SevenOfEight(status / 2);
  }

  predicate AllAre(data: seq<byte>, b: byte) {
    forall k :: 0 <= k < |data| ==> data[k] == b
  }

  /** What becomes of one command: its status, how much of a failed write
      lands, and what a failed read leaves in the buffer. */
  datatype Fate = Fate(status: u16, landed: nat, garbage: byte)

  /** A namespace: flat bytes behind block commands. */
  class Namespace {
    const bs: nat
    var flat: seq<byte>
    /** The fate of each command to come; any sequence of faults is one. */
    const fate: nat -> Fate
    var commands: nat

    constructor (bs: nat, flat: seq<byte>, fate: nat -> Fate)
      ensures this.bs == bs && this.flat == flat && this.fate == fate && commands == 0
    {
      this.bs, this.flat, this.fate, commands := bs, flat, fate, 0;
    }

    /** A read that fails, or reaches beyond the end, delivers garbage. */
    method Read(lba: nat, blocks: nat) returns (status: u16, data: seq<byte>)
      modifies this`commands
      ensures commands == old(commands) + 1 && |data| == Blocks(blocks, bs)
      ensures Succeeded(status) ==> ReadFrom(flat, Blocks(lba, bs), data)
      ensures !Succeeded(fate(old(commands)).status) ==> status == fate(old(commands)).status
      ensures !Succeeded(status) ==> AllAre(data, fate(old(commands)).garbage)
    {
      var f := fate(commands);
      commands := commands + 1;
      var at, len := Blocks(lba, bs), Blocks(blocks, bs);
      status := if Succeeded(f.status) && at + len > |flat| then 0x100 else f.status;
      data := if Succeeded(status) then flat[at..at + len] else seq(len, _ => f.garbage);
    }

    /** A command that fails may have written any part of its data. */
    method Write(lba: nat, data: seq<byte>) returns (status: u16)
      modifies this`commands, this`flat
      ensures commands == old(commands) + 1 && |flat| == |old(flat)|
      ensures PartlyWritten(old(flat), flat, Blocks(lba, bs), data)
      ensures Succeeded(status) ==> Written(old(flat), flat, Blocks(lba, bs), data)
      ensures Blocks(lba, bs) + |data| <= |flat| ==> status == fate(old(commands)).status
    {
      var f := fate(commands);
      commands := commands + 1;
      var off := Blocks(lba, bs);
      if off + |data| > |flat| {
        return if Succeeded(f.status) then 0x100 else f.status;
      }
      status := f.status;
      var done := if Succeeded(status) then |data| else Min(f.landed, |data|);
      flat := flat[..off] + data[..done] + flat[off + done..];
    }

    /** Commands the driver has given up on may still take effect. */
    method LateEffects()
      modifies this`flat
      ensures |flat| == |old(flat)|
    {
      var changed: seq<byte> :| |changed| == |flat|;
      flat := changed;
    }
  }

  class Controller {
    const ns: Namespace
    const blockSize: nat
    /** The I/O queue pair, and how many polls fit before the deadline. */
    const queue: NvmeQueue.Controller
    const deadline: nat
    /** The status of every command issued, by its number. */
    var statuses: seq<u16>
    /** How many commands the driver has seen fail or not seen answered. */
    ghost var failures: nat

    constructor (ns: Namespace, deadline: nat)
      ensures Valid() && fresh(queue) && Clean() && failures == 0
      ensures this.ns == ns && this.deadline == deadline
    {
      this.ns, this.blockSize, this.deadline := ns, ns.bs, deadline;
      this.queue := new NvmeQueue.Controller();
      this.statuses, failures := [], 0;
    }

    ghost predicate Valid()
      reads this, queue
    {
      && blockSize == ns.bs && queue.Valid()
      && NvmeQueue.Indices(queue.q) && !queue.q.waiting && |statuses| == queue.q.issued
    }

    /** No submission has timed out so far. */
    ghost predicate Clean()
      reads queue
    {
      queue.q.timeouts == 0
    }

    /** Issues a command whose own status is `own`. The driver takes whatever
        completion comes next: its own as long as nothing has timed out. */
    method Submit(own: u16) returns (seen: Option<u16>)
      requires Valid()
      modifies this`statuses, queue
      ensures Valid()
      ensures Clean() <==> old(Clean()) && seen.Some?
      ensures seen.Some? && old(Clean()) ==> seen.value == own
    {
      var id, looks := queue.IoSubmit(deadline);
      statuses := statuses + [own];
      if id.None? {
        return None;
      }
      return Some(if id.value < |statuses| then statuses[id.value] else own);
    }

    /** The largest whole number of blocks one command can move; none if a
        block is larger than a page. */
    method NextChunk(left: nat, ghost total: nat, ghost k: nat) returns (blocks: nat, chunk: nat)
      requires blockSize > 0 && left > 0 && Blocks(k, blockSize) + left == Blocks(total, blockSize)
      ensures chunk == Blocks(blocks, blockSize) <= left
      ensures blocks > 0 <==> blockSize <= MAX_XFER
      ensures blocks > 0 ==> chunk > 0
      ensures Blocks(k, blockSize) + chunk == Blocks(k + blocks, blockSize)
    {
      var rest;
      blocks, rest := Split(Min(left, MAX_XFER), blockSize);
      chunk := Blocks(blocks, blockSize);
      if total <= k { BlocksMono(total, k, blockSize); assert false; }
      BlocksMono(k, total, blockSize);
      BlocksMono(0, blocks, blockSize);
      BlocksAdd(k, blocks, blockSize);
    }

    /** Issues one read. `misread` tells that it failed and was, or would have
        been, taken for a success. */
    method IssueRead(lba: nat, blocks: nat) returns (data: Option<seq<byte>>, ghost misread: bool)
      requires Valid()
      modifies this`statuses, this`failures, queue, ns
      ensures Valid() && (Clean() ==> old(Clean())) && (data.Some? && old(Clean()) ==> Clean())
      ensures ns.commands == old(ns.commands) + 1 && failures == old(failures) + (if data.Some? then 0 else 1)
      ensures old(Clean()) ==> ns.flat == old(ns.flat)
      ensures data.Some? ==> |data.value| == Blocks(blocks, blockSize)
      ensures data.Some? && !misread && old(Clean()) ==> ReadFrom(ns.flat, Blocks(lba, blockSize), data.value)
      ensures Misread(ns.fate(old(ns.commands)).status) && old(Clean()) && Clean() ==>
        data.Some? && misread && AllAre(data.value, ns.fate(old(ns.commands)).garbage)
    {
      GivenUp();
      var status, bytes := ns.Read(lba, blocks);
      misread := Misread(status);
      VerdictExact(status);
      var seen := Submit(status);
      if seen.None? || !DriverAccepts(seen.value) {
        failures := failures + 1;
        return None, misread;
      }
      return Some(bytes), misread;
    }

    /** The device fills the buffer behind what was read before. */
    method Deliver(data: seq<byte>, buf: array<byte>, done: nat)
      requires done + |data| <= buf.Length
      modifies buf
      ensures buf[done..done + |data|] == data && buf[..done] == old(buf[..done])
      ensures buf[done + |data|..] == old(buf[done + |data|..])
    {
      forall i | done <= i < done + |data| {
        buf[i] := data[i - done];
      }
    }

    /** One read command into buf at done, behind what was read before. */
    method ReadCommand(lba: nat, blocks: nat, buf: array<byte>, done: nat, ghost start: nat, ghost good: bool) returns (ok: bool, ghost misread: bool)
      requires Valid() && done + Blocks(blocks, blockSize) <= buf.Length && Blocks(lba, blockSize) == start + done
      requires good && done > 0 ==> ReadFrom(ns.flat, start, buf[..done])
      modifies this`statuses, this`failures, queue, ns, buf
      ensures Valid() && (Clean() ==> old(Clean())) && (ok && old(Clean()) ==> Clean())
      ensures ns.commands == old(ns.commands) + 1 && failures == old(failures) + (if ok then 0 else 1)
      ensures old(Clean()) ==> ns.flat == old(ns.flat)
      ensures ok && good && !misread && old(Clean()) ==> ReadFrom(ns.flat, start, buf[..done + Blocks(blocks, blockSize)])
      ensures Misread(ns.fate(old(ns.commands)).status) && old(Clean()) && Clean() ==>
        ok && misread && AllAre(buf[done..done + Blocks(blocks, blockSize)], ns.fate(old(ns.commands)).garbage)
      ensures buf[done + Blocks(blocks, blockSize)..] == old(buf[done + Blocks(blocks, blockSize)..])
    {
      var data;
      data, misread := IssueRead(lba, blocks);
      if data.None? {
        return false, misread;
      }
      Deliver(data.value, buf, done);
      if good && !misread && old(Clean()) {
        ReadOn(ns.flat, start, buf[..], done, |data.value|);
      }
      return true, misread;
    }

    /** Once a command has been given up on, the disk may change by itself. */
    method GivenUp()
      modifies ns`flat
      ensures Clean() ==> ns.flat == old(ns.flat)
      ensures |ns.flat| == |old(ns.flat)|
    {
      if queue.q.timeouts > 0 {
        ns.LateEffects();
      }
    }

    /** `read_dev`: whole blocks in commands of at most a page. */
    method ReadDev(lba: nat, blocks: nat, buf: array<byte>) returns (ok: bool, ghost misread: bool)
      requires Valid()
      modifies this`statuses, this`failures, queue, ns, buf
      ensures Valid() && (Clean() ==> old(Clean())) && failures >= old(failures) && ns.commands >= old(ns.commands)
      ensures ok && old(Clean()) ==> Clean()
      ensures ok <==> (blocks == 0 || (0 < blockSize <= MAX_XFER && Blocks(blocks, blockSize) <= buf.Length)) && failures == old(failures)
      ensures old(Clean()) ==> ns.flat == old(ns.flat)
      ensures ok && blocks > 0 && !misread && old(Clean()) ==> ReadFrom(ns.flat, Blocks(lba, blockSize), buf[..Blocks(blocks, blockSize)])
      ensures OneMisread(blocks, buf.Length, old(ns.commands)) && old(Clean()) && Clean() ==>
        ok && misread && ns.commands == old(ns.commands) + 1 && AllAre(buf[..blockSize], ns.fate(old(ns.commands)).garbage)
      ensures Blocks(blocks, blockSize) <= buf.Length ==> buf[Blocks(blocks, blockSize)..] == old(buf[Blocks(blocks, blockSize)..])
      ensures buf.Length < Blocks(blocks, blockSize) ==> buf[..] == old(buf[..])
    {
      misread := false;
      if blocks == 0 {
        return true, misread;
      }
      var bs := blockSize;
      var bufSize := Blocks(blocks, bs);
      if bs == 0 || buf.Length < bufSize {
        return false, misread;
      }
      BlocksMono(0, blocks, bs);
      OneBlock(bs);
      ok, misread := ReadAll(lba, blocks, buf, bufSize);
    }

    /** The loop of `read_dev`. */
    method ReadAll(lba: nat, blocks: nat, buf: array<byte>, bufSize: nat) returns (ok: bool, ghost misread: bool)
      requires Valid() && blockSize > 0 && 0 < bufSize == Blocks(blocks, blockSize) <= buf.Length
      modifies this`statuses, this`failures, queue, ns, buf
      ensures Valid() && (Clean() ==> old(Clean())) && failures >= old(failures) && ns.commands >= old(ns.commands)
      ensures ok && old(Clean()) ==> Clean()
      ensures ok <==> blockSize <= MAX_XFER && failures == old(failures)
      ensures old(Clean()) ==> ns.flat == old(ns.flat)
      ensures ok && !misread && old(Clean()) ==> ReadFrom(ns.flat, Blocks(lba, blockSize), buf[..bufSize])
      ensures OneMisread(blocks, buf.Length, old(ns.commands)) && old(Clean()) && Clean() ==>
        ok && misread && ns.commands == old(ns.commands) + 1 && AllAre(buf[..bufSize], ns.fate(old(ns.commands)).garbage)
      ensures buf[bufSize..] == old(buf[bufSize..])
    {
      misread := false;
      var bs := blockSize;
      var done, currentLba := 0, lba;
      ghost var k, start := 0, Blocks(lba, bs);
      OneBlock(bs);
      while done < bufSize
        invariant 0 <= done <= bufSize && done == Blocks(k, bs) && currentLba == lba + k
        invariant Valid() && (Clean() <==> old(Clean())) && failures == old(failures) && ns.commands >= old(ns.commands)
        invariant done > 0 ==> bs <= MAX_XFER
        invariant old(Clean()) ==> ns.flat == old(ns.flat)
        invariant !misread && old(Clean()) && done > 0 ==> ReadFrom(ns.flat, start, buf[..done])
        invariant buf[bufSize..] == old(buf[bufSize..])
        invariant done == 0 ==> ns.commands == old(ns.commands) && !misread
        invariant done > 0 && OneMisread(blocks, buf.Length, old(ns.commands)) && old(Clean()) ==>
          done == bufSize && misread && ns.commands == old(ns.commands) + 1 && AllAre(buf[..bufSize], ns.fate(old(ns.commands)).garbage)
        decreases bufSize - done
      {
        var chunkBlocks, chunk := NextChunk(bufSize - done, blocks, k);
        if chunk == 0 {
          return false, misread;
        }
        BlocksAdd(lba, k, bs);
        var read, wrong := ReadCommand(currentLba, chunkBlocks, buf, done, start, !misread && old(Clean()));
        misread := misread || wrong;
        if !read {
          return false, misread;
        }
        done, currentLba, k := done + chunk, currentLba + chunkBlocks, k + chunkBlocks;
      }
      return true, misread;
    }

    lemma OneBlock(bs: nat)
      ensures Blocks(1, bs) == bs
    {
      assert Blocks(0, bs) == 0;
    }

    /** A request for a single block whose command is going to fail and be
        taken for a success. */
    ghost predicate OneMisread(blocks: nat, room: nat, command: nat)
    {
      blocks == 1 && 0 < blockSize <= MAX_XFER && blockSize <= room && Misread(ns.fate(command).status)
    }

    /** One write command. */
    method WriteCommand(lba: nat, data: seq<byte>) returns (ok: bool, ghost misread: bool)
      requires Valid()
      modifies this`statuses, this`failures, queue, ns
      ensures Valid() && (Clean() ==> old(Clean())) && (ok && old(Clean()) ==> Clean())
      ensures failures == old(failures) + (if ok then 0 else 1)
      ensures old(Clean()) ==> PartlyWritten(old(ns.flat), ns.flat, Blocks(lba, blockSize), data)
      ensures ok && !misread && old(Clean()) ==> Written(old(ns.flat), ns.flat, Blocks(lba, blockSize), data)
      ensures old(Clean()) && Clean() && Takes(lba, |data|, old(ns.commands)) ==> ok && !misread
      ensures ns.commands == old(ns.commands) + 1 && |ns.flat| == |old(ns.flat)|
    {
      GivenUp();
      var status := ns.Write(lba, data);
      misread := Misread(status);
      var seen := Submit(status);
      ok := seen.Some? && DriverAccepts(seen.value);
      VerdictExact(status);
      if !ok {
        failures := failures + 1;
      }
    }

    /** The disk carries out every command from this one on, and the bytes are
        within it. */
    ghost predicate Takes(lba: nat, len: nat, command: nat)
      reads ns
    {
      Blocks(lba, blockSize) + len <= |ns.flat| && forall n: nat :: n >= command ==> Succeeded(ns.fate(n).status)
    }

    /** `write_dev`: a failure midway leaves every byte of the request old or
        new and every other byte alone. */
    method WriteDev(lba: nat, blocks: nat, buf: seq<byte>) returns (ok: bool, ghost misread: bool)
      requires Valid()
      modifies this`statuses, this`failures, queue, ns
      ensures Valid() && (Clean() ==> old(Clean())) && (ok && old(Clean()) ==> Clean()) && failures >= old(failures)
      ensures ok <==> (blocks == 0 || (0 < blockSize <= MAX_XFER && Blocks(blocks, blockSize) <= |buf|)) && failures == old(failures)
      ensures old(Clean()) && |buf| < Blocks(blocks, blockSize) ==> ns.flat == old(ns.flat)
      ensures old(Clean()) && Blocks(blocks, blockSize) <= |buf| ==>
        PartlyWritten(old(ns.flat), ns.flat, Blocks(lba, blockSize), buf[..Blocks(blocks, blockSize)])
      ensures ok && blocks > 0 && !misread && old(Clean()) ==> Written(old(ns.flat), ns.flat, Blocks(lba, blockSize), buf[..Blocks(blocks, blockSize)])
      ensures old(Takes(lba, Blocks(blocks, blockSize), ns.commands)) && old(Clean()) && Clean() ==> !misread && failures == old(failures)
    {
      misread := false;
      if blocks == 0 {
        return true, misread;
      }
      var bs := blockSize;
      var bufSize := Blocks(blocks, bs);
      if bs == 0 || |buf| < bufSize {
        return false, misread;
      }
      BlocksMono(0, blocks, bs);
      ok, misread := WriteAll(lba, blocks, buf[..bufSize]);
    }

    /** The next command of a write of all the bytes. */
    method WriteNext(currentLba: nat, bytes: seq<byte>, done: nat, ghost lba: nat, ghost k: nat, ghost total: nat, ghost f0: seq<byte>, ghost well: bool)
        returns (ok: bool, ghost wrong: bool, chunk: nat, chunkBlocks: nat)
      requires Valid() && blockSize > 0 && |bytes| == Blocks(total, blockSize) && done == Blocks(k, blockSize) < |bytes| && currentLba == lba + k
      requires Clean() ==> WroteSoFar(f0, ns.flat, Blocks(lba, blockSize), bytes, done, well)
      modifies this`statuses, this`failures, queue, ns
      ensures Valid() && (Clean() ==> old(Clean())) && (ok && old(Clean()) ==> Clean()) && |ns.flat| == |old(ns.flat)|
      ensures ns.commands >= old(ns.commands) && failures >= old(failures)
      ensures ok <==> blockSize <= MAX_XFER && failures == old(failures)
      ensures ok ==> 0 < chunk <= |bytes| - done && done + chunk == Blocks(k + chunkBlocks, blockSize)
      ensures old(Clean()) ==> PartlyWritten(f0, ns.flat, Blocks(lba, blockSize), bytes)
      ensures ok && old(Clean()) ==> WroteSoFar(f0, ns.flat, Blocks(lba, blockSize), bytes, done + chunk, well && !wrong)
      ensures old(Takes(lba, |bytes|, ns.commands)) && old(Clean()) && Clean() ==> !wrong && failures == old(failures)
    {
      chunkBlocks, chunk := NextChunk(|bytes| - done, total, k);
      wrong := false;
      if chunk == 0 {
        return false, wrong, chunk, chunkBlocks;
      }
      BlocksAdd(lba, k, blockSize);
      ghost var f1, start := ns.flat, Blocks(lba, blockSize);
      ok, wrong := WriteCommand(currentLba, bytes[done..done + chunk]);
      if old(Clean()) {
        WroteMore(f0, f1, ns.flat, start, bytes, done, chunk, well, ok && !wrong);
      }
    }

    /** The loop of `write_dev`. */
    method WriteAll(lba: nat, blocks: nat, bytes: seq<byte>) returns (ok: bool, ghost misread: bool)
      requires Valid() && blockSize > 0 && |bytes| == Blocks(blocks, blockSize) > 0
      modifies this`statuses, this`failures, queue, ns
      ensures Valid() && (Clean() ==> old(Clean())) && (ok && old(Clean()) ==> Clean()) && failures >= old(failures)
      ensures ok <==> blockSize <= MAX_XFER && failures == old(failures)
      ensures old(Clean()) ==> PartlyWritten(old(ns.flat), ns.flat, Blocks(lba, blockSize), bytes)
      ensures ok && !misread && old(Clean()) ==> Written(old(ns.flat), ns.flat, Blocks(lba, blockSize), bytes)
      ensures old(Takes(lba, |bytes|, ns.commands)) && old(Clean()) && Clean() ==> !misread && failures == old(failures)
    {
      var bs := blockSize;
      var done, currentLba := 0, lba;
      ghost var f0, start, k := ns.flat, Blocks(lba, bs), 0;
      ghost var sound := Takes(lba, |bytes|, ns.commands) && Clean();
      misread := false;
      while done < |bytes|
        invariant 0 <= done <= |bytes| && done == Blocks(k, bs) && currentLba == lba + k
        invariant Valid() && (Clean() <==> old(Clean())) && failures == old(failures)
        invariant done > 0 ==> bs <= MAX_XFER
        invariant old(Clean()) ==> WroteSoFar(f0, ns.flat, start, bytes, done, !misread)
        invariant ns.commands >= old(ns.commands) && |ns.flat| == |f0| && (sound ==> !misread)
        decreases |bytes| - done
      {
        var written, wrong, chunk, chunkBlocks := WriteNext(currentLba, bytes, done, lba, k, blocks, f0, !misread);
        misread := misread || wrong;
        if !written {
          return false, misread;
        }
        done, currentLba, k := done + chunk, currentLba + chunkBlocks, k + chunkBlocks;
      }
      assert bytes[..done] == bytes;
      return true, misread;
    }

    /** `read_bytes`: any offset and length, for block sizes up to a page. As
        long as nothing has timed out, a success is the slice asked for unless
        one of this request's own commands failed and was taken for one. */
    method ReadBytes(byteOffset: nat, buf: array<byte>) returns (ok: bool, ghost misread: bool)
      requires Valid() && buf.Length < 0x1_0000_0000
      modifies this`statuses, this`failures, queue, ns, buf
      ensures Valid() && (ok && old(Clean()) ==> Clean()) && (old(Clean()) ==> ns.flat == old(ns.flat))
      ensures ok && !misread && old(Clean()) && buf.Length > 0 ==> ReadFrom(ns.flat, byteOffset, buf[..])
      ensures ok ==> failures == old(failures) && blockSize > 0 && (buf.Length > 0 ==> blockSize <= MAX_XFER)
      ensures failures == old(failures) && 0 < blockSize <= MAX_XFER ==> ok
    {
      var bs := blockSize;
      if bs == 0 {
        return false, false;
      }
      var lba, inBlock := Split(byteOffset, bs);
      var whole, rest := Split(buf.Length, bs);
      if inBlock == 0 && rest == 0 {
        ok, misread := ReadDev(lba, whole, buf);
        assert buf[..buf.Length] == buf[..];
        return;
      }
      var need := RoundUp(inBlock + buf.Length, bs);
      ok, misread := ReadUnaligned(lba, inBlock, buf, need);
    }

    /** Reads the blocks the request touches and copies the slice out. */
    method ReadUnaligned(lba: nat, inBlock: nat, buf: array<byte>, need: nat) returns (ok: bool, ghost misread: bool)
      requires Valid() && 0 < inBlock + buf.Length <= Blocks(need, blockSize)
      modifies this`statuses, this`failures, queue, ns, buf
      ensures Valid() && (ok && old(Clean()) ==> Clean()) && (old(Clean()) ==> ns.flat == old(ns.flat))
      ensures ok && !misread && old(Clean()) ==> ReadFrom(ns.flat, Blocks(lba, blockSize) + inBlock, buf[..])
      ensures ok ==> failures == old(failures) && 0 < blockSize <= MAX_XFER
      ensures failures == old(failures) && 0 < blockSize <= MAX_XFER ==> ok
    {
      var len := Blocks(need, blockSize);
      var tmp := new byte[len](_ => 0);
      ok, misread := ReadDev(lba, need, tmp);
      if !ok {
        return;
      }
      forall i | 0 <= i < buf.Length {
        buf[i] := tmp[inBlock + i];
      }
      assert tmp[..len] == tmp[..];
      assert buf[..] == tmp[..][inBlock..inBlock + buf.Length];
      if !misread && old(Clean()) {
        ReadWithin(ns.flat, Blocks(lba, blockSize), tmp[..], inBlock, buf.Length);
      }
    }

    /** The touched blocks hold `was` with the request laid over it. */
    ghost predicate LaidOver(before: seq<byte>, after: seq<byte>, byteOffset: nat, was: seq<byte>, buf: seq<byte>)
    {
      blockSize > 0 && var skip := byteOffset % blockSize;
      skip + |buf| <= |was| && Written(before, after, byteOffset - skip, Overlay(was, skip, buf))
    }

    /** Every byte of the touched blocks is old or as in `LaidOver`, and every
        other byte is old. */
    ghost predicate PartlyLaidOver(before: seq<byte>, after: seq<byte>, byteOffset: nat, was: seq<byte>, buf: seq<byte>)
    {
      blockSize > 0 && var skip := byteOffset % blockSize;
      skip + |buf| <= |was| < skip + |buf| + blockSize && PartlyWritten(before, after, byteOffset - skip, Overlay(was, skip, buf))
    }

    /** A request inside one block whose read is about to fail and be taken
        for a success, on a disk that carries out all that follows. */
    ghost predicate ReadSpoiled(byteOffset: nat, len: nat)
      reads ns
    {
      InOneBlock(byteOffset, len) && OnlyReadFails(byteOffset / blockSize)
    }

    /** `write_bytes`: as long as nothing had timed out before, bytes outside
        the request never change, even when a command fails midway, unless the
        blocks around an unaligned request were read back wrong; and a success
        writes all of the request, unless a write failed and was taken for
        one. `was` is what was read back. */
    method WriteBytes(byteOffset: nat, buf: seq<byte>) returns (ok: bool, ghost misreadRead: bool, ghost misreadWrite: bool, ghost was: seq<byte>)
      requires Valid() && |buf| < 0x1_0000_0000
      modifies this`statuses, this`failures, queue, ns
      ensures Valid() && (ok && old(Clean()) ==> Clean())
      ensures blockSize > 0 && byteOffset % blockSize == 0 && |buf| % blockSize == 0 ==> !misreadRead
      ensures old(Clean()) && !misreadRead ==> PartlyWritten(old(ns.flat), ns.flat, byteOffset, buf)
      ensures ok && old(Clean()) && !misreadRead && !misreadWrite && |buf| > 0 ==> Written(old(ns.flat), ns.flat, byteOffset, buf)
      ensures old(Clean()) && misreadRead ==> PartlyLaidOver(old(ns.flat), ns.flat, byteOffset, was, buf)
      ensures ok && old(Clean()) && misreadRead && !misreadWrite ==> LaidOver(old(ns.flat), ns.flat, byteOffset, was, buf)
      ensures ok ==> failures == old(failures) && blockSize > 0 && (|buf| > 0 ==> blockSize <= MAX_XFER)
      ensures failures == old(failures) && 0 < blockSize <= MAX_XFER ==> ok
      ensures old(ReadSpoiled(byteOffset, |buf|)) && old(Clean()) && Clean() ==>
        ok && misreadRead && !misreadWrite && |was| == blockSize && AllAre(was, ns.fate(old(ns.commands)).garbage)
    {
      misreadRead, misreadWrite, was := false, false, [];
      var bs := blockSize;
      if bs == 0 {
        return false, misreadRead, misreadWrite, was;
      }
      var lba, inBlock := Split(byteOffset, bs);
      var whole, rest := Split(|buf|, bs);
      if inBlock == 0 && rest == 0 {
        assert buf[..|buf|] == buf;
        ok, misreadWrite := WriteDev(lba, whole, buf);
        return;
      }
      var need := RoundUp(inBlock + |buf|, bs);
      if InOneBlock(byteOffset, |buf|) { SingleBlock(need); }
      ok, misreadRead, misreadWrite, was := ReadModifyWrite(lba, inBlock, buf, need);
    }

    /** Part of one block, of a size the driver serves. */
    ghost predicate InOneBlock(byteOffset: nat, len: nat)
    {
      0 < blockSize <= MAX_XFER && 0 < len < blockSize && byteOffset % blockSize + len <= blockSize
    }

    lemma SingleBlock(need: nat)
      requires 0 < blockSize && 0 < Blocks(need, blockSize) < 2 * blockSize
      ensures need == 1
    {
      OneBlock(blockSize);
      if need >= 1 {
        BlocksMono(1, need, blockSize);
        WholeRoundUp(need, 1, blockSize);
      }
    }

    /** The next command fails and is taken for a success, and the disk carries
        out all that follow. */
    ghost predicate OnlyReadFails(lba: nat)
      reads ns
    {
      Misread(ns.fate(ns.commands).status) && Takes(lba, blockSize, ns.commands + 1)
    }

    method ReadModifyWrite(lba: nat, inBlock: nat, buf: seq<byte>, need: nat)
        returns (ok: bool, ghost misreadRead: bool, ghost misreadWrite: bool, ghost was: seq<byte>)
      requires Valid() && 0 < inBlock + |buf| <= Blocks(need, blockSize)
      modifies this`statuses, this`failures, queue, ns
      ensures Valid() && (ok && old(Clean()) ==> Clean())
      ensures old(Clean()) && !misreadRead ==> PartlyWritten(old(ns.flat), ns.flat, Blocks(lba, blockSize) + inBlock, buf)
      ensures ok && old(Clean()) && !misreadRead && !misreadWrite ==> Written(old(ns.flat), ns.flat, Blocks(lba, blockSize) + inBlock, buf)
      ensures |was| == Blocks(need, blockSize)
      ensures ok && old(Clean()) && !misreadWrite ==> Written(old(ns.flat), ns.flat, Blocks(lba, blockSize), Overlay(was, inBlock, buf))
      ensures old(Clean()) ==> PartlyWritten(old(ns.flat), ns.flat, Blocks(lba, blockSize), Overlay(was, inBlock, buf))
      ensures ok ==> failures == old(failures) && 0 < blockSize <= MAX_XFER
      ensures failures == old(failures) && 0 < blockSize <= MAX_XFER ==> ok
      ensures need == 1 && 0 < blockSize <= MAX_XFER && old(OnlyReadFails(lba)) && old(Clean()) && Clean() ==>
        ok && misreadRead && !misreadWrite && AllAre(was, ns.fate(old(ns.commands)).garbage)
    {
      OneBlock(blockSize);
      var len := Blocks(need, blockSize);
      var tmp := new byte[len](_ => 0);
      misreadWrite := false;
      ok, misreadRead := ReadDev(lba, need, tmp);
      was := tmp[..];
      if !ok {
        return;
      }
      assert was[..len] == was;
      ghost var good := !misreadRead && old(Clean());
      forall i | 0 <= i < |buf| {
        tmp[inBlock + i] := buf[i];
      }
      assert tmp[..] == Overlay(was, inBlock, buf);
      ok, misreadWrite := WriteBack(lba, inBlock, buf, need, tmp[..], was, good);
    }

    /** Writes the blocks of a request back, with the request laid over them. */
    method WriteBack(lba: nat, ghost inBlock: nat, ghost buf: seq<byte>, need: nat, blocks: seq<byte>, ghost was: seq<byte>, ghost good: bool)
        returns (ok: bool, ghost misread: bool)
      requires Valid() && 0 < inBlock + |buf| <= Blocks(need, blockSize) == |was| && blocks == Overlay(was, inBlock, buf)
      requires good ==> ReadFrom(ns.flat, Blocks(lba, blockSize), was)
      modifies this`statuses, this`failures, queue, ns
      ensures Valid() && (Clean() ==> old(Clean())) && (ok && old(Clean()) ==> Clean()) && failures >= old(failures)
      ensures good && old(Clean()) ==> PartlyWritten(old(ns.flat), ns.flat, Blocks(lba, blockSize) + inBlock, buf)
      ensures ok && good && old(Clean()) && !misread ==> Written(old(ns.flat), ns.flat, Blocks(lba, blockSize) + inBlock, buf)
      ensures ok && old(Clean()) && !misread ==> Written(old(ns.flat), ns.flat, Blocks(lba, blockSize), Overlay(was, inBlock, buf))
      ensures old(Clean()) ==> PartlyWritten(old(ns.flat), ns.flat, Blocks(lba, blockSize), Overlay(was, inBlock, buf))
      ensures ok <==> 0 < blockSize <= MAX_XFER && failures == old(failures)
      ensures old(Takes(lba, Blocks(need, blockSize), ns.commands)) && old(Clean()) && Clean() ==> !misread && failures == old(failures)
    {
      ghost var f0, start := ns.flat, Blocks(lba, blockSize);
      assert blocks[..|blocks|] == blocks;
      ok, misread := WriteDev(lba, need, blocks);
      if good && old(Clean()) {
        OverlayPartly(f0, ns.flat, start, blocks, inBlock, buf);
      }
    }
  }

  /** On any disk with blocks of up to a page: one byte is written, the read of
      its block fails with status code 80h, and the rest of the block is lost. */
  method NeighbourDamaged(deadline: nat, bs: nat, flat: seq<byte>, b: byte, garbage: byte) returns (c: Controller, ok: bool)
    requires 1 < bs <= MAX_XFER && bs <= |flat|
    ensures c.Valid() && c.ns.bs == bs
    ensures c.Clean() ==> ok && c.ns.flat == [b] + seq(bs - 1, _ => garbage) + flat[bs..]
  {
    var fate := (n: nat) => if n == 0 then Fate(0x100, 0, garbage) else Fate(0, 0, 0);
    var ns := new Namespace(bs, flat, fate);
    c := new Controller(ns, deadline);
    ghost var misreadRead, misreadWrite, was;
    ok, misreadRead, misreadWrite, was := c.WriteBytes(0, [b]);
    if c.Clean() {
      BlockReplaced(flat, c.ns.flat, bs, was, b, garbage);
    }
  }

  lemma BlockReplaced(before: seq<byte>, after: seq<byte>, bs: nat, was: seq<byte>, b: byte, garbage: byte)
    requires 1 < bs == |was| && AllAre(was, garbage) && Written(before, after, 0, Overlay(was, 0, [b]))
    ensures after == [b] + seq(bs - 1, _ => garbage) + before[bs..]
  {
    assert |after| == |before|;
  }
}
