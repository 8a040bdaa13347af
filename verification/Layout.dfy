/** How data is laid out on a disk, built up by concatenation: the other side
    of reading it by offset. */
module Layout {
  import opened Arith
  import opened Wire

  function Joined<T>(parts: seq<seq<T>>): seq<T> {
    if parts == [] then [] else Joined(parts[..|parts| - 1]) + parts[|parts| - 1]
  }

  predicate Even<T>(parts: seq<seq<T>>, size: nat) {
    forall k :: 0 <= k < |parts| ==> |parts[k]| == size
  }

  lemma {:induction false} JoinedLength<T>(parts: seq<seq<T>>, size: nat)
    requires Even(parts, size)
    ensures |Joined(parts)| == Blocks(|parts|, size)
  {
    if parts != [] {
      JoinedLength(parts[..|parts| - 1], size);
    }
  }

  /** Part k of equal parts begins at byte k * size. */
  lemma {:induction false} PartAt<T>(parts: seq<seq<T>>, size: nat, k: nat)
    requires Even(parts, size) && k < |parts|
    ensures Blocks(k, size) + size <= |Joined(parts)| && Joined(parts)[Blocks(k, size)..Blocks(k, size) + size] == parts[k]
  {
    var n := |parts| - 1;
    JoinedLength(parts[..n], size);
    if k < n {
      PartAt(parts[..n], size, k);
      var before := Joined(parts[..n]);
      assert Joined(parts)[..|before|] == before;
      assert Joined(parts)[Blocks(k, size)..Blocks(k, size) + size] == before[Blocks(k, size)..Blocks(k, size) + size];
    }
  }

  lemma {:induction false} JoinedMore<T>(a: seq<seq<T>>, b: seq<seq<T>>)
    ensures Joined(a + b) == Joined(a) + Joined(b)
  {
    if b == [] {
      assert a + b == a;
    } else {
      var n := |b| - 1;
      assert (a + b)[..|a + b| - 1] == a + b[..n];
      JoinedMore(a, b[..n]);
      Regroup(Joined(a), Joined(b[..n]), b[n]);
    }
  }

  /** A table of 32-bit words. */
  function Words(ws: seq<u32>): (parts: seq<seq<byte>>)
    ensures |parts| == |ws| && Even(parts, 4) && forall k :: 0 <= k < |ws| ==> parts[k] == Put32(ws[k])
  {
    seq(|ws|, k requires 0 <= k < |ws| => Put32(ws[k]))
  }

  /** The low byte comes first. */
  lemma LowByteFirst()
    ensures Le16([0x34, 0x12], 0) == 0x1234
    ensures Le32([0x78, 0x56, 0x34, 0x12], 0) == 0x1234_5678
    ensures Le64([0xF0, 0xDE, 0xBC, 0x9A, 0x78, 0x56, 0x34, 0x12], 0) == 0x1234_5678_9ABC_DEF0
  {
  }

  /** A field is read back where it was put. */
  lemma Field16(s: seq<byte>, off: nat, v: u16)
    requires off + 2 <= |s| && s[off..off + 2] == Put16(v)
    ensures U16At(s, off) == v
  {
    assert s[off] == Put16(v)[0] && s[off + 1] == Put16(v)[1];
  }

  lemma Field32(s: seq<byte>, off: nat, v: u32)
    requires off + 4 <= |s| && s[off..off + 4] == Put32(v)
    ensures U32At(s, off) == v
  {
    var p := Put32(v);
    assert s[off] == p[0] && s[off + 1] == p[1] && s[off + 2] == p[2] && s[off + 3] == p[3];
  }
}
