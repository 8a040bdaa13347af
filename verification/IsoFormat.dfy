/** Directory records as a disc master writes them (section 9.1 of ECMA-119). */
module IsoFormat {
  import opened IsoDirectory
  import opened Layout
  import opened Arith
  import opened Wire

  /** The other way round from Put32: the high byte first. */
  function Big32(v: u32): (b: seq<byte>)
    ensures |b| == 4
  {
    var p := Put32(v);
    [p[3], p[2], p[1], p[0]]
  }

  /** A record with both orders of its numbers, a date, and what the driver
      does not look at. */
  datatype Fields = Fields(attributes: byte, lba: u32, size: u32, date: seq<byte>, isDir: bool, otherFlags: nat, unit: byte, gap: byte,
                           volume: seq<byte>, id: seq<byte>, sys: seq<byte>) {
    predicate Fit() {
      |date| == 7 && |volume| == 4 && 0 < |id| < 0x100 && otherFlags < 64 && 33 + |id| + Pad() + |sys| < 0x100
    }

    function Pad(): nat { if |id| % 2 == 0 then 1 else 0 }

    /** Bit 0 hides the record, bit 1 marks a directory. */
    function Flags(): byte
      requires Fit()
    {
      otherFlags % 2 + (if isDir then 2 else 0) + otherFlags / 2 * 4
    }

    function Head(): (h: seq<byte>)
      requires Fit()
      ensures |h| == 33
    {
      [33 + |id| + Pad() + |sys|, attributes] + Put32(lba) + Big32(lba) + Put32(size) + Big32(size)
      + date + [Flags(), unit, gap] + volume + [|id|]
    }

    function Bytes(): seq<byte>
      requires Fit()
    {
      Head() + id + (seq(Pad(), _ => 0) + sys)
    }
  }

  lemma RecordWritten(f: Fields)
    requires f.Fit()
    ensures IsRecord(f.Bytes(), f.id, f.sys, f.lba, f.size, f.isDir)
  {
    var b, h := f.Bytes(), f.Head();
    assert h[2..6] == Put32(f.lba) && h[10..14] == Put32(f.size);
    HeadFlags(f);
    assert b[..33] == h && b[33..33 + |f.id|] == f.id && b[33 + |f.id| + f.Pad()..] == f.sys;
    assert forall k :: 0 <= k < 33 ==> b[k] == h[k];
    SliceOfSlice(b, 0, 33, 2, 6);
    SliceOfSlice(b, 0, 33, 10, 14);
    Field32(b, 2, f.lba);
    Field32(b, 10, f.size);
  }

  lemma HeadFlags(f: Fields)
    requires f.Fit()
    ensures f.Head()[25] == f.Flags() && f.Head()[32] == |f.id| && f.Head()[0] == |f.Bytes()|
    ensures f.Flags() / 2 % 2 == 1 <==> f.isDir
  {
  }
}
