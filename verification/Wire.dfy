/** Bytes, little-endian fields and the result types shared by the drivers. */
module Wire {

  type byte = x: int | 0 <= x < 0x100
  type u16 = x: int | 0 <= x < 0x1_0000
  type u32 = x: int | 0 <= x < 0x1_0000_0000
  type u64 = x: int | 0 <= x < 0x1_0000_0000_0000_0000

  datatype Option<+T> = None | Some(value: T)

  datatype FsError = IoError | InvalidPath | NotSupported | NotFound

  datatype Result<+T> = Ok(value: T) | Err(error: FsError)

  function Min(a: int, b: int): int {
    if a < b then a else b
  }

  function Max(a: int, b: int): int {
    if a > b then a else b
  }

  function Le16(s: seq<byte>, off: nat): u16
    requires off + 2 <= |s|
  {
    s[off] as int + 0x100 * s[off + 1] as int
  }

  function Le32(s: seq<byte>, off: nat): u32
    requires off + 4 <= |s|
  {
    Le16(s, off) as int + 0x1_0000 * Le16(s, off + 2) as int
  }

  function Le64(s: seq<byte>, off: nat): u64
    requires off + 8 <= |s|
  {
    Le32(s, off) as int + 0x1_0000_0000 * Le32(s, off + 4) as int
  }

  // The same fields written.

  function Put16(v: u16): (b: seq<byte>)
    ensures |b| == 2 && Le16(b, 0) == v
  {
    [v % 0x100, v / 0x100]
  }

  function Put32(v: u32): (b: seq<byte>)
    ensures |b| == 4 && Le32(b, 0) == v
  {
    Put16(v % 0x1_0000) + Put16(v / 0x1_0000)
  }

  function Put64(v: u64): (b: seq<byte>)
    ensures |b| == 8 && Le64(b, 0) == v
  {
    Put32(v % 0x1_0000_0000) + Put32(v / 0x1_0000_0000)
  }

  /** A field that may lie outside the buffer reads as zero. */
  function U16At(s: seq<byte>, off: nat): u16 {
    if off + 2 <= |s| then Le16(s, off) else 0
  }

  function U32At(s: seq<byte>, off: nat): u32 {
    if off + 4 <= |s| then Le32(s, off) else 0
  }

  /** Bit `k` of an unsigned field, given as the power of two it stands for. */
  predicate Flag(x: nat, mask: nat)
    requires mask > 0
  {
    (x / mask) % 2 == 1
  }

  function AsSeq<T>(o: Option<T>): seq<T> {
    if o.Some? then [o.value] else []
  }

  lemma Regroup<T>(a: seq<T>, b: seq<T>, c: seq<T>)
    ensures a + (b + c) == a + b + c && a + [] == a
  {
  }
}
