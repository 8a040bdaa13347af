/** The boot-log ring of kernel/src/boot_log/mod.rs (the shell log is the same
    code with another size): a fixed buffer that keeps the newest bytes. */
module LogRing {
  import opened Arith
  import opened Wire

  /** What reads from `cursor` on have given so far: nothing yet, or all bytes
      still there up to `end`. */
  predicate Tiled(history: seq<byte>, first: nat, cursor: nat, all: seq<byte>, end: nat) {
    var start := Max(cursor, first);
    if start >= |history| then all == [] && Max(end, first) >= |history|
    else (all == [] && end == cursor) || (start < end <= |history| && all == history[start..end])
  }

  lemma TileMore(history: seq<byte>, first: nat, cursor: nat, all: seq<byte>, end: nat, chunk: seq<byte>, next: nat)
    requires Tiled(history, first, cursor, all, end) && first <= |history|
    requires chunk == [] <==> Max(end, first) >= |history|
    requires chunk == [] ==> next == |history|
    requires chunk != [] ==> next == Max(end, first) + |chunk| <= |history| && chunk == history[next - |chunk|..next]
    ensures Tiled(history, first, cursor, all + chunk, next)
  {
    var start := Max(cursor, first);
    if start < |history| && chunk != [] {
      if all == [] && end == cursor {
        assert all + chunk == chunk && next - |chunk| == start;
      } else {
        assert next - |chunk| == end;
        assert history[start..end] + history[end..next] == history[start..next];
      }
    } else {
      assert all + chunk == all;
    }
  }

  class Ring {
    const size: nat
    const buf: array<byte>
    var total: nat
    /** Every byte ever logged. */
    ghost var history: seq<byte>

    ghost predicate Valid()
      reads this, buf
    {
      && size > 0 && buf.Length == size
      && total == |history|
      && forall i :: 0 <= i < total && total - size <= i ==> buf[i % size] == history[i]
    }

    constructor (size: nat)
      requires size > 0
      ensures Valid() && fresh(buf) && this.size == size && history == []
    {
      this.size := size;
      this.buf := new byte[size];
      this.total := 0;
      this.history := [];
    }

    method LogByte(b: byte)
      requires Valid()
      modifies this, buf
      ensures Valid() && history == old(history) + [b]
    {
      var position := total % size;
      forall i | 0 <= i < total && total + 1 - size <= i
        ensures i % size != position
      {
        SlotsDiffer(i, total, size);
      }
      buf[position] := b;
      total := total + 1;
      history := history + [b];
    }

    method LogBytes(bytes: seq<byte>)
      requires Valid()
      modifies this, buf
      ensures Valid() && history == old(history) + bytes
    {
      for i := 0 to |bytes|
        invariant Valid() && history == old(history) + bytes[..i]
      {
        LogByte(bytes[i]);
      }
    }

    /** Bytes before this position have been overwritten. */
    function FirstCursor(): nat
      reads this
    {
      if total > size then total - size else 0
    }

    /** The stretch of the buffer from `start` that does not wrap. */
    method Stretch(start: nat, limit: nat) returns (index: nat, count: nat)
      requires Valid() && FirstCursor() <= start < total && limit > 0
      ensures 0 < count <= limit && start + count <= total && index + count <= size
      ensures count == Min(Min(size - start % size, total - start), limit)
      ensures buf[index..index + count] == history[start..start + count]
    {
      index := start % size;
      count := Min(Min(size - index, total - start), limit);
      forall p | index <= p < index + count
        ensures buf[p] == history[start + (p - index)]
      {
        SameLap(start, p - index, size);
      }
    }

    method CopyOut(index: nat, count: nat, out: array<byte>)
      requires out != buf && index + count <= buf.Length && count <= out.Length
      modifies out
      ensures out[..count] == buf[index..index + count] && out[count..] == old(out[count..])
    {
      forall k | 0 <= k < count {
        out[k] := buf[index + k];
      }
    }

    /** Copies bytes from `cursor` on, skipping what is lost, into `out`. */
    method ReadChunk(cursor: nat, out: array<byte>) returns (count: nat, next: nat)
      requires Valid() && out != buf
      modifies out
      ensures count <= out.Length && next <= total
      ensures count == 0 <==> Max(cursor, FirstCursor()) >= total || out.Length == 0
      ensures count == 0 ==> next == total
      ensures count > 0 ==> next == Max(cursor, FirstCursor()) + count && out[..count] == history[next - count..next]
      ensures out[count..] == old(out[count..])
    {
      var start := Max(cursor, FirstCursor());
      if start >= total || out.Length == 0 {
        return 0, total;
      }
      var index;
      index, count := Stretch(start, out.Length);
      next := start + count;
      CopyOut(index, count, out);
    }

    /** Appends the whole window: the last min(total, size) bytes of the log. */
    method CopyLog(out: seq<byte>) returns (out': seq<byte>)
      requires Valid()
      ensures out' == out + history[FirstCursor()..]
      ensures |history[FirstCursor()..]| == Min(total, size)
    {
      out' := out;
      var cursor := FirstCursor();
      while cursor < total
        invariant FirstCursor() <= cursor <= total
        invariant out' == out + history[FirstCursor()..cursor]
      {
        var index, count := Stretch(cursor, total);
        out' := out' + buf[index..index + count];
        cursor := cursor + count;
      }
    }

    /** Repeated reads from any cursor tile the rest of the window: no gap, no
        overlap, whatever the buffer size. */
    method Drain(cursor: nat, buffer: array<byte>) returns (all: seq<byte>, end: nat)
      requires Valid() && buffer != buf && buffer.Length > 0
      modifies buffer
      ensures end == total
      ensures all == if Max(cursor, FirstCursor()) < total then history[Max(cursor, FirstCursor())..] else []
    {
      all, end := [], cursor;
      var count := 1;
      ghost var start := Max(cursor, FirstCursor());
      while count > 0
        invariant Tiled(history, FirstCursor(), cursor, all, end)
        invariant count == 0 ==> end == total
        decreases if count == 0 then 0 else 1, total - Min(end, total), count
      {
        var next;
        count, next := ReadChunk(end, buffer);
        TileMore(history, FirstCursor(), cursor, all, end, buffer[..count], next);
        all := all + buffer[..count];
        end := next;
      }
    }
  }
}
