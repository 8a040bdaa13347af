/** The streaming printer of kernel/src/commands/cat.rs: the file comes in
    chunks of any size, characters cut by a chunk border are carried over. */
module CatPrint {
  import opened Utf8
  import opened Wire

  const CHUNK: nat := 16 * 1024
  const NEWLINE: byte := 0x0A

  /** Where the "(binary data, n bytes)" notice is printed, if at all: instead
      of any text, or on a line of its own after some. */
  datatype Notice = NoNotice | Instead | After

  datatype Printed = Printed(text: seq<byte>, notice: Notice)

  /** Text as printed at the end of a file: a missing final newline is added. */
  function Terminated(text: seq<byte>): seq<byte> {
    if text != [] && text[|text| - 1] != NEWLINE then text + [NEWLINE] else text
  }

  /** What a file prints as, given the size of its first chunk. */
  function Output(file: seq<byte>, first: nat): Printed
    requires first <= |file|
  {
    if Validate(file[..first]).verdict == Broken then Printed([], Instead)
    else
      var c := Validate(file);
      if c.verdict == Broken then Printed(file[..c.valid], After) else Printed(Terminated(file[..c.valid]), NoNotice)
  }

  /** One read: any positive number of bytes up to a chunk, 0 at the end. */
  method Read(file: seq<byte>, at: nat) returns (n: nat)
    requires at <= |file|
    ensures n <= CHUNK && at + n <= |file|
    ensures n == 0 <==> at == |file|
  {
    if at == |file| {
      return 0;
    }
    n :| 0 < n <= CHUNK && at + n <= |file|;
  }

  /** Prints a file; `first` tells how much the first read returned. However
      the later reads split the file, the output is the same. */
  method PrintFile(file: seq<byte>) returns (out: Printed, first: nat)
    ensures first <= Min(CHUNK, |file|) && (first == 0 <==> file == [])
    ensures out == Output(file, first)
  {
    first := Read(file, 0);
    if first == 0 {
      return Printed([], NoNotice), 0;
    }
    if Validate(file[..first]).verdict == Broken {
      return Printed([], Instead), first;
    }
    var text: seq<byte>, pending: seq<byte> := [], [];
    var lastByte: Option<byte> := None;
    var at: nat, chunk: nat := 0, first;
    while chunk != 0
      invariant at + chunk <= |file| && (chunk == 0 <==> at == |file|)
      invariant CarriedOver(file, at, text, pending)
      invariant lastByte == LastOf(text)
      decreases |file| - at
    {
      var broken;
      text, pending, broken := PrintChunk(file, at, file[at..at + chunk], text, pending);
      lastByte := LastOf(text);
      if broken {
        return Printed(text, After), first;
      }
      at := at + chunk;
      chunk := Read(file, at);
    }
    assert file[..|file|] == file;
    if lastByte.Some? && lastByte.value != NEWLINE {
      text := text + [NEWLINE];
    }
    return Printed(text, NoNotice), first;
  }

  function LastOf(text: seq<byte>): Option<byte> {
    if text == [] then None else Some(text[|text| - 1])
  }

  /** Between chunks: what is printed is the valid part of the bytes read, and
      what is carried over is the beginning of one character. */
  ghost predicate CarriedOver(file: seq<byte>, at: nat, text: seq<byte>, pending: seq<byte>) {
    && |text| <= at <= |file| && text == file[..|text|] && pending == file[|text|..at]
    && Validate(file[..at]).valid == |text| && Validate(file[..at]).verdict != Broken
  }

  lemma CarryIsShort(file: seq<byte>, at: nat, text: seq<byte>, pending: seq<byte>)
    requires CarriedOver(file, at, text, pending)
    ensures |pending| < 4 && Validate(pending).valid == 0
  {
    RestIsPartial(file[..at]);
    assert file[..at][|text|..] == pending;
  }

  /** One turn of the loop. */
  method PrintChunk(ghost file: seq<byte>, ghost at: nat, data: seq<byte>, text: seq<byte>, pending: seq<byte>)
      returns (text': seq<byte>, pending': seq<byte>, broken: bool)
    requires CarriedOver(file, at, text, pending)
    requires at + |data| <= |file| && data == file[at..at + |data|]
    ensures !broken ==> CarriedOver(file, at + |data|, text', pending')
    ensures broken ==> Validate(file).verdict == Broken && text' == file[..Validate(file).valid]
  {
    var all := pending + data;
    ChunkArrives(file, at, data, text, pending);
    var c := Validate(all);
    broken := c.verdict == Broken;
    text' := if c.valid > 0 then text + all[..c.valid] else text;
    assert text' == text + all[..c.valid];
    pending' := all[c.valid..];
    if broken {
      BrokenInside(file, at + |data|);
    }
  }

  lemma CarriedSlices<T>(file: seq<T>, t: nat, at: nat, end: nat, v: nat)
    requires t <= at <= end <= |file| && t + v <= end
    ensures var all := file[t..at] + file[at..end];
      && all == file[t..end] && file[..at] + file[at..end] == file[..end] && file[..at][t..] == file[t..at]
      && file[..t] + all[..v] == file[..t + v] && all[v..] == file[t + v..end]
  {
    assert file[t..at] + file[at..end] == file[t..end];
    assert file[t..end][..v] == file[t..t + v];
  }

  lemma ArrivesChecked(file: seq<byte>, at: nat, data: seq<byte>, t: nat, pending: seq<byte>, c: Check)
    requires t <= at && at + |data| <= |file| && data == file[at..at + |data|] && pending == file[t..at]
    requires t == Validate(file[..at]).valid && c == Validate(pending + data)
    ensures Validate(file[..at + |data|]) == Check(t + c.valid, c.verdict)
  {
    assert file[..at] + data == file[..at + |data|];
    assert file[..at][t..] == pending;
    ValidateAppend(file[..at], data);
  }

  /** Checking the carried-over bytes and the new chunk continues the check of
      the file. */
  lemma ChunkArrives(file: seq<byte>, at: nat, data: seq<byte>, text: seq<byte>, pending: seq<byte>)
    requires CarriedOver(file, at, text, pending)
    requires at + |data| <= |file| && data == file[at..at + |data|]
    ensures var all := pending + data;
      var c := Validate(all);
      && Validate(file[..at + |data|]) == Check(|text| + c.valid, c.verdict)
      && text + all[..c.valid] == file[..|text| + c.valid] && all[c.valid..] == file[|text| + c.valid..at + |data|]
      && (c.verdict != Broken ==> CarriedOver(file, at + |data|, text + all[..c.valid], all[c.valid..]))
  {
    var c := Validate(pending + data);
    ArrivesChecked(file, at, data, |text|, pending, c);
    CarriedSlices(file, |text|, at, at + |data|, c.valid);
  }

  lemma BrokenInside(file: seq<byte>, n: nat)
    requires n <= |file| && Validate(file[..n]).verdict == Broken
    ensures Validate(file) == Validate(file[..n])
  {
    BrokenStays(file[..n], file[n..]);
    assert file[..n] + file[n..] == file;
  }

  lemma BrokenEarlier(file: seq<byte>, m: nat, n: nat)
    requires m <= n <= |file| && Validate(file[..m]).verdict == Broken
    ensures Validate(file[..n]).verdict == Broken
  {
    BrokenStays(file[..m], file[m..n]);
    assert file[..m] + file[m..n] == file[..n];
  }

  /** A UTF-8 text prints as itself, terminated, however it is read. */
  lemma TextPrintsAsIs(s: string, first: nat)
    requires first <= |Encode(s)|
    ensures Output(Encode(s), first) == Printed(Terminated(Encode(s)), NoNotice)
  {
    var file := Encode(s);
    EncodedIsClean(s);
    if Validate(file[..first]).verdict == Broken {
      BrokenInside(file, first);
    }
    assert file[..|file|] == file;
  }

  /** The output does not depend on how the file is split exactly when the
      first chunk at its largest shows nothing broken, or the very first byte
      already does. */
  lemma SplitIndependence(file: seq<byte>)
    requires file != []
    ensures var largest := Min(CHUNK, |file|);
      (forall a, b {:trigger Output(file, a), Output(file, b)} :: 1 <= a <= largest && 1 <= b <= largest ==> Output(file, a) == Output(file, b)) <==>
      Validate(file[..largest]).verdict != Broken || Validate(file[..1]).verdict == Broken
  {
    var largest := Min(CHUNK, |file|);
    forall a | 1 <= a <= largest
      ensures Validate(file[..1]).verdict == Broken ==> Output(file, a) == Printed([], Instead)
      ensures Validate(file[..largest]).verdict != Broken ==> Validate(file[..a]).verdict != Broken
    {
      if Validate(file[..1]).verdict == Broken {
        BrokenEarlier(file, 1, a);
      }
      if Validate(file[..a]).verdict == Broken {
        BrokenEarlier(file, a, largest);
      }
    }
    if Validate(file[..largest]).verdict == Broken && Validate(file[..1]).verdict != Broken {
      assert Output(file, largest) != Output(file, 1);
    }
  }
}
