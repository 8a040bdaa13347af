/** Byte-addressed I/O of the SATA and ATAPI disks in
    kernel/src/drivers/ahci.rs. */
module AhciIo {
  import opened Arith
  import opened FlatWrites
  import opened Wire

  const MAX_SECTORS: nat := 128

  /** A SATA port: sectors of flat bytes, where any command may fail. */
  class Port {
    const ss: nat
    var flat: seq<byte>
    /** How many commands have failed so far. */
    ghost var failures: nat

    constructor (ss: nat, flat: seq<byte>)
      ensures this.ss == ss && this.flat == flat && failures == 0
    {
      this.ss, this.flat, failures := ss, flat, 0;
    }

    method ReadSectors(lba: nat, count: nat) returns (data: Option<seq<byte>>)
      modifies this`failures
      ensures failures == old(failures) + (if data.Some? then 0 else 1)
      ensures data.Some? ==> |data.value| == Blocks(count, ss) && ReadFrom(flat, Blocks(lba, ss), data.value)
    {
      var fails: bool := *;
      var at, len := Blocks(lba, ss), Blocks(count, ss);
      if fails || at + len > |flat| {
        failures := failures + 1;
        return None;
      }
      return Some(flat[at..at + len]);
    }

    /** A command that fails may have written any part of its data. */
    method WriteSectors(lba: nat, data: seq<byte>) returns (ok: bool)
      modifies this
      ensures failures == old(failures) + (if ok then 0 else 1)
      ensures PartlyWritten(old(flat), flat, Blocks(lba, ss), data)
      ensures ok ==> Written(old(flat), flat, Blocks(lba, ss), data)
    {
      var off := Blocks(lba, ss);
      if off + |data| > |flat| {
        failures := failures + 1;
        return false;
      }
      ok := *;
      var done: nat := |data|;
      if !ok {
        var cut: nat :| cut <= |data|;
        done := cut;
        failures := failures + 1;
      }
      flat := flat[..off] + data[..done] + flat[off + done..];
    }
  }

  class AhciDisk {
    const port: Port
    const ss: nat

    constructor (port: Port)
      requires port.ss > 0
      ensures this.port == port && ss == port.ss && Valid()
    {
      this.port, this.ss := port, port.ss;
    }

    ghost predicate Valid()
    {
      ss == port.ss && ss > 0
    }

    /** A chunk is 128 sectors or what is left: never empty, never cut within
        a sector. */
    method NextChunk(len: nat, done: nat, ghost total: nat, ghost k: nat) returns (chunk: nat, count: nat)
      requires ss > 0 && len == Blocks(total, ss) && done == Blocks(k, ss) < len
      ensures 0 < count <= MAX_SECTORS && k + count <= total
      ensures chunk == Blocks(count, ss) && done + chunk == Blocks(k + count, ss) <= len
    {
      if total <= k { BlocksMono(total, k, ss); assert false; }
      BlocksAdd(k, total - k, ss);
      chunk := Min(Blocks(MAX_SECTORS, ss), len - done);
      var rest;
      count, rest := Split(chunk, ss);
      ghost var n := Min(MAX_SECTORS, total - k);
      BlocksMono(MAX_SECTORS, Max(MAX_SECTORS, total - k), ss);
      BlocksMono(total - k, Max(MAX_SECTORS, total - k), ss);
      assert chunk == Blocks(n, ss);
      SameBlocks(count, rest, n, ss);
      BlocksAdd(k, n, ss);
      BlocksMono(k + n, total, ss);
    }

    /** One read command into buf at done, behind what was read before. */
    method ReadCommand(lba: nat, count: nat, buf: array<byte>, done: nat, ghost start: nat) returns (ok: bool)
      requires Valid() && done + Blocks(count, ss) <= buf.Length && Blocks(lba, ss) == start + done
      requires done > 0 ==> ReadFrom(port.flat, start, buf[..done])
      modifies buf, port`failures
      ensures port.failures == old(port.failures) + (if ok then 0 else 1)
      ensures ok ==> ReadFrom(port.flat, start, buf[..done + Blocks(count, ss)])
    {
      var data := port.ReadSectors(lba, count);
      if data.None? { return false; }
      var len := Blocks(count, ss);
      forall k | done <= k < done + len { buf[k] := data.value[k - done]; }
      assert buf[done..done + len] == data.value;
      assert buf[..done] == old(buf[..done]);
      ReadOn(port.flat, start, buf[..], done, len);
      return true;
    }

    /** Whole sectors in commands of at most 128. */
    method ReadChunks(lba: nat, buf: array<byte>, ghost total: nat) returns (ok: bool)
      requires Valid() && buf.Length == Blocks(total, ss)
      modifies buf, port`failures
      ensures ok <==> port.failures == old(port.failures)
      ensures ok && buf.Length > 0 ==> ReadFrom(port.flat, Blocks(lba, ss), buf[..])
    {
      var done, at := 0, lba;
      ghost var k, start := 0, Blocks(lba, ss);
      while done < buf.Length
        invariant 0 <= done <= buf.Length && done == Blocks(k, ss) && at == lba + k
        invariant port.failures == old(port.failures)
        invariant done > 0 ==> ReadFrom(port.flat, start, buf[..done])
      {
        var chunk, count := NextChunk(buf.Length, done, total, k);
        BlocksAdd(lba, k, ss);
        var read := ReadCommand(at, count, buf, done, start);
        if !read { return false; }
        done, at, k := done + chunk, at + count, k + count;
      }
      assert buf[..done] == buf[..];
      return true;
    }

    /** A failure midway leaves every byte of the request old or new and every
        other byte alone. */
    method WriteChunks(lba: nat, buf: seq<byte>, ghost total: nat) returns (ok: bool)
      requires Valid() && |buf| == Blocks(total, ss)
      modifies port
      ensures ok <==> port.failures == old(port.failures)
      ensures port.failures >= old(port.failures)
      ensures PartlyWritten(old(port.flat), port.flat, Blocks(lba, ss), buf)
      ensures ok && |buf| > 0 ==> Written(old(port.flat), port.flat, Blocks(lba, ss), buf)
    {
      var done, at := 0, lba;
      ghost var f0, k, start := port.flat, 0, Blocks(lba, ss);
      while done < |buf|
        invariant 0 <= done <= |buf| && done == Blocks(k, ss) && at == lba + k
        invariant port.failures == old(port.failures)
        invariant PartlyWritten(f0, port.flat, start, buf)
        invariant if done > 0 then Written(f0, port.flat, start, buf[..done]) else port.flat == f0
      {
        var chunk, count := NextChunk(|buf|, done, total, k);
        BlocksAdd(lba, k, ss);
        ghost var f1 := port.flat;
        ok := port.WriteSectors(at, buf[done..done + chunk]);
        PartlyThenPartly(f0, f1, port.flat, start, buf, done, chunk);
        if !ok { return; }
        if done > 0 { WrittenThenWritten(f0, f1, port.flat, start, buf, done, chunk); }
        done, at, k := done + chunk, at + count, k + count;
      }
      assert buf[..done] == buf;
      return true;
    }

    /** Any offset and length: a success is the slice asked for. */
    method ReadBytes(byteOffset: nat, buf: array<byte>) returns (ok: bool)
      requires Valid()
      modifies buf, port`failures
      ensures ok <==> port.failures == old(port.failures)
      ensures ok && buf.Length > 0 ==> ReadFrom(port.flat, byteOffset, buf[..])
    {
      var lba, inSector := Split(byteOffset, ss);
      var whole, rest := Split(buf.Length, ss);
      if inSector == 0 && rest == 0 {
        ok := ReadChunks(lba, buf, whole);
        return;
      }
      var need := RoundUp(inSector + buf.Length, ss);
      ok := ReadPart(lba, inSector, buf, need);
    }

    /** Reads the sectors a request touches and copies its bytes out. */
    method ReadPart(lba: nat, inSector: nat, buf: array<byte>, need: nat) returns (ok: bool)
      requires Valid() && 0 < inSector + buf.Length <= Blocks(need, ss)
      modifies buf, port`failures
      ensures ok <==> port.failures == old(port.failures)
      ensures ok ==> ReadFrom(port.flat, Blocks(lba, ss) + inSector, buf[..])
    {
      var tmp := new byte[Blocks(need, ss)](_ => 0);
      ok := ReadChunks(lba, tmp, need);
      if !ok { return; }
      forall k | 0 <= k < buf.Length { buf[k] := tmp[inSector + k]; }
      assert buf[..] == tmp[..][inSector..inSector + buf.Length];
      ReadWithin(port.flat, Blocks(lba, ss), tmp[..], inSector, buf.Length);
    }

    /** Any offset and length: bytes outside the request never change, even
        when a command fails midway, and a success writes all of it. */
    method WriteBytes(byteOffset: nat, buf: seq<byte>) returns (ok: bool)
      requires Valid()
      modifies port
      ensures ok <==> port.failures == old(port.failures)
      ensures PartlyWritten(old(port.flat), port.flat, byteOffset, buf)
      ensures ok && |buf| > 0 ==> Written(old(port.flat), port.flat, byteOffset, buf)
    {
      var lba, inSector := Split(byteOffset, ss);
      var whole, rest := Split(|buf|, ss);
      if inSector == 0 && rest == 0 {
        ok := WriteChunks(lba, buf, whole);
        return;
      }
      var need := RoundUp(inSector + |buf|, ss);
      ok := ReadModifyWrite(lba, inSector, buf, need);
    }

    method ReadModifyWrite(lba: nat, inSector: nat, buf: seq<byte>, need: nat) returns (ok: bool)
      requires Valid() && 0 < inSector + |buf| <= Blocks(need, ss)
      modifies port
      ensures ok <==> port.failures == old(port.failures)
      ensures PartlyWritten(old(port.flat), port.flat, Blocks(lba, ss) + inSector, buf)
      ensures ok ==> Written(old(port.flat), port.flat, Blocks(lba, ss) + inSector, buf)
    {
      var tmp := new byte[Blocks(need, ss)](_ => 0);
      var read := ReadChunks(lba, tmp, need);
      if !read { return false; }
      forall k | 0 <= k < |buf| { tmp[inSector + k] := buf[k]; }
      ghost var f0, start := port.flat, Blocks(lba, ss);
      var sectors := tmp[..];
      ok := WriteChunks(lba, sectors, need);
      OverlayPartly(f0, port.flat, start, sectors, inSector, buf);
    }
  }

  /** The most bytes one ATAPI command takes. */
  const ATAPI_MAX: nat := 0xFFFE
  const ATAPI_BLOCKS: nat := 32
  const TWO32: nat := 0x1_0000_0000

  /** Blocks and bytes of the first command of a request for `total` blocks:
      no later one is larger. */
  function FirstCommand(total: nat, bs: nat): nat {
    Blocks(Min(total, ATAPI_BLOCKS), bs)
  }

  /** Of the 2048-byte blocks of a data disc at most 31 can be asked for at
      once: a 32nd makes the first command two bytes too long. */
  lemma DiscLimit(total: nat)
    ensures FirstCommand(total, 2048) <= ATAPI_MAX <==> total <= 31
  {
    BlocksTimes(Min(total, ATAPI_BLOCKS), 2048);
  }

  /** A CD or DVD: blocks of flat bytes, where any command may fail. */
  class AtapiDisk {
    const bs: nat
    const flat: seq<byte>
    /** No command fails without a reason. */
    const sound: bool

    constructor (bs: nat, flat: seq<byte>, sound: bool)
      requires bs > 0
      ensures this.bs == bs && this.flat == flat && this.sound == sound
    {
      this.bs, this.flat, this.sound := bs, flat, sound;
    }

    /** The 32-bit block number of READ(10) loses the top bits of a longer
        one. On a sound disk only oversized or out-of-range commands fail. */
    method Command(lba: nat, blocks: nat) returns (data: Option<seq<byte>>)
      ensures Blocks(blocks, bs) > ATAPI_MAX ==> data.None?
      ensures data.Some? ==> |data.value| == Blocks(blocks, bs) && ReadFrom(flat, Blocks(lba % TWO32, bs), data.value)
      ensures sound && Blocks(blocks, bs) <= ATAPI_MAX && Blocks(lba % TWO32, bs) + Blocks(blocks, bs) <= |flat| ==> data.Some?
    {
      var fails: bool := *;
      var at, len := Blocks(lba % TWO32, bs), Blocks(blocks, bs);
      if len > ATAPI_MAX || (fails && !sound) || at + len > |flat| { return None; }
      return Some(flat[at..at + len]);
    }

    predicate InRange(lba: nat, total: nat) {
      lba + total <= TWO32 && Blocks(lba, bs) + Blocks(total, bs) <= |flat|
    }

    /** Reads `total` whole blocks from block lba on, in commands of at most
        32 blocks. Only requests whose first command is within the limit are
        ever served, and on a sound disk all of those are. */
    method ReadBlocks(lba: nat, buf: array<byte>, ghost total: nat) returns (ok: bool)
      requires bs > 0 && buf.Length == Blocks(total, bs)
      modifies buf
      ensures ok ==> lba < TWO32 && FirstCommand(total, bs) <= ATAPI_MAX
      ensures ok && total > 0 && lba + total <= TWO32 ==> ReadFrom(flat, Blocks(lba, bs), buf[..])
      ensures sound && lba < TWO32 && InRange(lba, total) && FirstCommand(total, bs) <= ATAPI_MAX ==> ok
    {
      if lba >= TWO32 { return false; }
      var offset, currentLba := 0, lba;
      ghost var k, start, reach := 0, Blocks(lba, bs), lba + total <= TWO32;
      while offset < buf.Length
        invariant 0 <= offset <= buf.Length && offset == Blocks(k, bs) && k <= total && currentLba == lba + k
        invariant k > 0 ==> FirstCommand(total, bs) <= ATAPI_MAX
        invariant k > 0 && reach ==> ReadFrom(flat, start, buf[..offset])
      {
        var blocks, take := NextCommand(buf.Length, offset, total, k);
        BlocksAdd(lba, k, bs);
        var read := ReadCommand(currentLba, blocks, buf, offset, start, reach);
        if !read { return false; }
        offset, currentLba, k := offset + take, currentLba + blocks, k + blocks;
      }
      assert buf[..offset] == buf[..];
      return true;
    }

    /** One command into buf at offset, behind what was read before. */
    method ReadCommand(lba: nat, blocks: nat, buf: array<byte>, offset: nat, ghost start: nat, ghost reach: bool) returns (ok: bool)
      requires offset + Blocks(blocks, bs) <= buf.Length && Blocks(lba, bs) == start + offset
      requires reach ==> lba < TWO32 && (offset > 0 ==> ReadFrom(flat, start, buf[..offset]))
      modifies buf
      ensures ok ==> Blocks(blocks, bs) <= ATAPI_MAX
      ensures ok && reach ==> ReadFrom(flat, start, buf[..offset + Blocks(blocks, bs)])
      ensures sound && reach && Blocks(blocks, bs) <= ATAPI_MAX && Blocks(lba, bs) + Blocks(blocks, bs) <= |flat| ==> ok
    {
      var data := Command(lba, blocks);
      if data.None? { return false; }
      var len := Blocks(blocks, bs);
      forall i | offset <= i < offset + len { buf[i] := data.value[i - offset]; }
      assert buf[offset..offset + len] == data.value;
      assert buf[..offset] == old(buf[..offset]);
      if reach { ReadOn(flat, start, buf[..], offset, len); }
      return true;
    }

    /** The size of the next command: never more than the first. */
    method NextCommand(len: nat, offset: nat, ghost total: nat, ghost k: nat) returns (blocks: nat, take: nat)
      requires bs > 0 && len == Blocks(total, bs) && offset == Blocks(k, bs) < len && k <= total
      ensures 0 < blocks && k + blocks <= total && take == Blocks(blocks, bs) <= FirstCommand(total, bs)
      ensures k == 0 ==> take == FirstCommand(total, bs)
      ensures offset + take == Blocks(k + blocks, bs) <= len
      ensures Blocks(k, bs) + take <= Blocks(total, bs)
    {
      if total <= k { BlocksMono(total, k, bs); assert false; }
      BlocksAdd(k, total - k, bs);
      var n := RoundUp(len - offset, bs);
      WholeRoundUp(n, total - k, bs);
      blocks := Min(n, ATAPI_BLOCKS);
      take := Blocks(blocks, bs);
      BlocksMono(blocks, Min(total, ATAPI_BLOCKS), bs);
      BlocksAdd(k, blocks, bs);
      BlocksMono(k + blocks, total, bs);
    }

    /** The number of the block after the last one touched. */
    function LastBlock(at: nat, len: nat): nat
      requires bs > 0
    {
      at / bs + Touched(at, len)
    }

    /** How many blocks a request touches. */
    function Touched(at: nat, len: nat): nat
      requires bs > 0
    {
      (at % bs + len + bs - 1) / bs
    }

    /** All the blocks a request touches are on the disc and have 32-bit numbers. */
    predicate OnDisc(at: nat, len: nat)
      requires bs > 0
    {
      at < 0x1_0000_0000_0000_0000 && at / bs < TWO32 && InRange(at / bs, Touched(at, len))
    }

    /** Any sector and length, in the 512-byte sectors of the block layer. */
    method Read(sector: nat, buf: array<byte>) returns (ok: bool)
      requires bs > 0
      modifies buf
      ensures ok && buf.Length > 0 && LastBlock(sector * 512, buf.Length) <= TWO32 ==> ReadFrom(flat, sector * 512, buf[..])
      ensures ok ==> FirstCommand(Touched(sector * 512, buf.Length), bs) <= ATAPI_MAX
      ensures sound && OnDisc(sector * 512, buf.Length) && FirstCommand(Touched(sector * 512, buf.Length), bs) <= ATAPI_MAX ==> ok
    {
      var byteOffset := sector * 512;
      if byteOffset >= 0x1_0000_0000_0000_0000 { return false; }
      var startBlock, inBlock := Split(byteOffset, bs);
      var need := RoundUp(inBlock + buf.Length, bs);
      ok := ReadPart(startBlock, inBlock, buf, need);
    }

    method ReadPart(startBlock: nat, inBlock: nat, buf: array<byte>, need: nat) returns (ok: bool)
      requires bs > 0 && inBlock + buf.Length <= Blocks(need, bs)
      modifies buf
      ensures ok && buf.Length > 0 && startBlock + need <= TWO32 ==> ReadFrom(flat, Blocks(startBlock, bs) + inBlock, buf[..])
      ensures ok ==> FirstCommand(need, bs) <= ATAPI_MAX
      ensures sound && startBlock < TWO32 && InRange(startBlock, need) && FirstCommand(need, bs) <= ATAPI_MAX ==> ok
    {
      var tmp := new byte[Blocks(need, bs)](_ => 0);
      ok := ReadBlocks(startBlock, tmp, need);
      if !ok { return; }
      forall k | 0 <= k < buf.Length { buf[k] := tmp[inBlock + k]; }
      assert buf[..] == tmp[..][inBlock..inBlock + buf.Length];
      if buf.Length > 0 && startBlock + need <= TWO32 {
        ReadWithin(flat, Blocks(startBlock, bs), tmp[..], inBlock, buf.Length);
      }
    }
  }
}
