/** Writes to a flat byte array that may be cut short. */
module FlatWrites {
  import opened Arith
  import opened Wire

  /** `after` is `before` with some of `bytes` written at `off`. */
  predicate PartlyWritten(before: seq<byte>, after: seq<byte>, off: int, bytes: seq<byte>) {
    && |after| == |before|
    && forall k :: 0 <= k < |before| ==>
         after[k] == before[k] || (off <= k < off + |bytes| && after[k] == bytes[k - off])
  }

  /** `after` is `before` with all of `bytes` written at `off`. */
  predicate Written(before: seq<byte>, after: seq<byte>, off: int, bytes: seq<byte>) {
    && |after| == |before| && 0 <= off && off + |bytes| <= |before|
    && forall k :: 0 <= k < |before| ==>
         after[k] == if off <= k < off + |bytes| then bytes[k - off] else before[k]
  }

  lemma PartlyThenPartly(f0: seq<byte>, f1: seq<byte>, f2: seq<byte>, off: nat, bytes: seq<byte>, done: nat, chunk: nat)
    requires done + chunk <= |bytes|
    requires PartlyWritten(f0, f1, off, bytes) && PartlyWritten(f1, f2, off + done, bytes[done..done + chunk])
    ensures PartlyWritten(f0, f2, off, bytes)
  {
  }

  /** Consecutive transfers equal one transfer. */
  lemma WrittenThenWritten(f0: seq<byte>, f1: seq<byte>, f2: seq<byte>, off: nat, bytes: seq<byte>, done: nat, chunk: nat)
    requires done + chunk <= |bytes|
    requires Written(f0, f1, off, bytes[..done]) && Written(f1, f2, off + done, bytes[done..done + chunk])
    ensures Written(f0, f2, off, bytes[..done + chunk])
  {
  }

  /** After the first `done` bytes of a chunked write: at most bytes of the
      request have changed and, if all went well, these are all written. */
  predicate WroteSoFar(f0: seq<byte>, now: seq<byte>, off: nat, bytes: seq<byte>, done: nat, well: bool)
    requires done <= |bytes|
  {
    PartlyWritten(f0, now, off, bytes) && (done == 0 ==> now == f0) && (well && done > 0 ==> Written(f0, now, off, bytes[..done]))
  }

  lemma WroteMore(f0: seq<byte>, f1: seq<byte>, f2: seq<byte>, off: nat, bytes: seq<byte>, done: nat, chunk: nat, well: bool, more: bool)
    requires done + chunk <= |bytes| && chunk > 0 && WroteSoFar(f0, f1, off, bytes, done, well)
    requires PartlyWritten(f1, f2, off + done, bytes[done..done + chunk])
    requires more ==> Written(f1, f2, off + done, bytes[done..done + chunk])
    ensures PartlyWritten(f0, f2, off, bytes)
    ensures more ==> WroteSoFar(f0, f2, off, bytes, done + chunk, well)
    ensures WroteSoFar(f0, f2, off, bytes, done + chunk, false)
  {
    PartlyThenPartly(f0, f1, f2, off, bytes, done, chunk);
    if well && more && done > 0 {
      WrittenThenWritten(f0, f1, f2, off, bytes, done, chunk);
    }
  }

  /** The blocks with the bytes laid over them. */
  function Overlay(blocks: seq<byte>, skip: nat, bytes: seq<byte>): (o: seq<byte>)
    requires skip + |bytes| <= |blocks|
    ensures |o| == |blocks|
  {
    blocks[..skip] + bytes + blocks[skip + |bytes|..]
  }

  /** Writing back whole blocks whose other bytes were just read changes at
      most the bytes of the request, even when cut short. */
  lemma OverlayPartly(f0: seq<byte>, f1: seq<byte>, start: nat, blocks: seq<byte>, skip: nat, bytes: seq<byte>)
    requires start + |blocks| <= |f0| && skip + |bytes| <= |blocks|
    requires forall i :: 0 <= i < |blocks| ==> blocks[i] == if skip <= i < skip + |bytes| then bytes[i - skip] else f0[start + i]
    requires PartlyWritten(f0, f1, start, blocks)
    ensures PartlyWritten(f0, f1, start + skip, bytes)
    ensures Written(f0, f1, start, blocks) ==> Written(f0, f1, start + skip, bytes)
  {
  }

  /** `data` is what `flat` holds at `off`. */
  predicate ReadFrom(flat: seq<byte>, off: int, data: seq<byte>) {
    0 <= off && off + |data| <= |flat| && data == flat[off..off + |data|]
  }

  /** Consecutive reads equal one read. */
  lemma ReadOn(flat: seq<byte>, off: nat, buf: seq<byte>, done: nat, chunk: nat)
    requires done + chunk <= |buf|
    requires done > 0 ==> ReadFrom(flat, off, buf[..done])
    requires ReadFrom(flat, off + done, buf[done..done + chunk])
    ensures ReadFrom(flat, off, buf[..done + chunk])
  {
    assert buf[..done + chunk] == buf[..done] + buf[done..done + chunk];
    assert flat[off..off + done + chunk] == flat[off..off + done] + flat[off + done..off + done + chunk];
  }

  /** A slice of what was read. */
  lemma ReadWithin(flat: seq<byte>, off: nat, data: seq<byte>, skip: nat, len: nat)
    requires ReadFrom(flat, off, data) && skip + len <= |data|
    ensures ReadFrom(flat, off + skip, data[skip..skip + len])
  {
    SliceOfSlice(flat, off, off + |data|, skip, skip + len);
  }
}
