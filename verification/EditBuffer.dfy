/** The buffer of the text editor in kernel/src/commands/edit.rs: a flat byte
    vector and an offset into it, edited as a list of lines. */
module EditBuffer {
  import opened Wire
  import opened TextLines

  const MAX_FILE: nat := 262144

  predicate WordByte(b: byte) {
    0x30 <= b <= 0x39 || 0x41 <= b <= 0x5A || 0x61 <= b <= 0x7A || b == 0x5F
  }

  /** A word is made of ASCII letters, digits and underscores. */
  lemma WordCharacter(c: char)
    requires c < 0x100 as char
    ensures WordByte(c as int) <==> '0' <= c <= '9' || 'A' <= c <= 'Z' || 'a' <= c <= 'z' || c == '_'
  {
  }

  predicate AllWord(line: seq<byte>, lo: nat, hi: nat) {
    lo <= hi <= |line| && forall k :: lo <= k < hi ==> WordByte(line[k])
  }

  predicate NoWord(line: seq<byte>, lo: nat, hi: nat) {
    lo <= hi <= |line| && forall k :: lo <= k < hi ==> !WordByte(line[k])
  }

  /** Going left from c over what is no word up to m, then over a word to its
      first byte r. */
  predicate WordLeftVia(line: seq<byte>, c: nat, m: nat, r: nat) {
    && NoWord(line, m, c) && (m > 0 ==> WordByte(line[m - 1]))
    && AllWord(line, r, m) && (r > 0 ==> !WordByte(line[r - 1]))
  }

  ghost predicate WordLeftOf(line: seq<byte>, c: nat, r: nat) {
    exists m: nat :: WordLeftVia(line, c, m, r)
  }

  /** Going right from c over the rest of a word to m, then up to the next word
      or the end of the line. */
  predicate WordRightVia(line: seq<byte>, c: nat, m: nat, r: nat) {
    && AllWord(line, c, m) && (m < |line| ==> !WordByte(line[m]))
    && NoWord(line, m, r) && (r < |line| ==> WordByte(line[r]))
  }

  ghost predicate WordRightOf(line: seq<byte>, c: nat, r: nat) {
    exists m: nat :: WordRightVia(line, c, m, r)
  }

  method ScanWordLeft(bytes: seq<byte>, from: nat) returns (c: nat)
    requires from <= |bytes|
    ensures WordLeftOf(bytes, from, c) && c <= |bytes|
  {
    c := from;
    while c > 0 && !WordByte(bytes[c - 1])
      invariant c <= from && NoWord(bytes, c, from)
    {
      c := c - 1;
    }
    ghost var m := c;
    while c > 0 && WordByte(bytes[c - 1])
      invariant c <= m && AllWord(bytes, c, m)
    {
      c := c - 1;
    }
    assert WordLeftVia(bytes, from, m, c);
  }

  method ScanWordRight(bytes: seq<byte>, from: nat) returns (c: nat)
    requires from <= |bytes|
    ensures WordRightOf(bytes, from, c) && c <= |bytes|
  {
    c := from;
    while c < |bytes| && WordByte(bytes[c])
      invariant AllWord(bytes, from, c)
    {
      c := c + 1;
    }
    ghost var m := c;
    while c < |bytes| && !WordByte(bytes[c])
      invariant NoWord(bytes, m, c)
    {
      c := c + 1;
    }
    assert WordRightVia(bytes, from, m, c);
  }

  /** How much of a string still goes in. */
  function Room(text: seq<byte>, more: nat): (n: nat)
    requires |text| <= MAX_FILE
    ensures n <= more
  {
    Min(more, MAX_FILE - |text|)
  }

  /** The text once the first n bytes of s went in at an offset. */
  function Spliced(text: seq<byte>, at: nat, s: seq<byte>, n: nat): seq<byte>
    requires at <= |text| && n <= |s|
  {
    text[..at] + s[..n] + text[at..]
  }

  lemma SpliceOne(text: seq<byte>, at: nat, s: seq<byte>, n: nat)
    requires at <= |text| && n < |s|
    ensures Inserted(Spliced(text, at, s, n), at + n, s[n]) == Spliced(text, at, s, n + 1)
  {
    var t := Spliced(text, at, s, n);
    assert t[..at + n] == text[..at] + s[..n] && t[at + n..] == text[at..];
    assert s[..n + 1] == s[..n] + [s[n]];
  }

  lemma InsertRemove(text: seq<byte>, at: nat, x: byte)
    requires at <= |text|
    ensures Removed(Inserted(text, at, x), at) == text
  {
    var after := Inserted(text, at, x);
    assert after[..at] == text[..at] && after[at + 1..] == text[at..];
  }

  class Editor {
    var text: seq<byte>
    var cursor: nat
    var modified: bool

    ghost predicate Valid()
      reads this
    {
      cursor <= |text| <= MAX_FILE
    }

    /** The cursor is in this line and column. */
    ghost predicate At(line: nat, column: nat)
      requires Valid()
      reads this
    {
      Line(text, cursor) == line && Column(text, cursor) == column
    }

    constructor (contents: seq<byte>)
      ensures Valid() && At(0, 0) && !modified
      ensures text == contents[..Min(|contents|, MAX_FILE)]
    {
      text := if |contents| > MAX_FILE then contents[..MAX_FILE] else contents;
      cursor, modified := 0, false;
    }

    method LineStarts() returns (starts: seq<nat>)
      requires Valid()
      ensures starts == Starts(text)
    {
      starts := [0];
      var index := 0;
      while index < |text|
        invariant 0 <= index <= |text| && starts == StartsUpTo(text, index)
      {
        if text[index] == NL { starts := starts + [index + 1]; }
        index := index + 1;
      }
    }

    /** Binary search for the cursor; a cursor between two starts belongs to
        the line before. */
    method CursorLine(starts: seq<nat>) returns (line: nat)
      requires Valid() && starts == Starts(text)
      ensures line == Line(text, cursor) && line < |starts| == |Lines(text)|
    {
      StartsFit(text, |text|);
      LineIsInside(text, cursor);
      ghost var target := Line(text, cursor);
      var lo, hi := 0, |starts|;
      while lo + 1 < hi
        invariant 0 <= lo <= target < hi <= |starts|
      {
        var mid := (lo + hi) / 2;
        if starts[mid] <= cursor {
          if target < mid && target + 1 < mid { Increasing(text, target + 1, mid); }
          lo := mid;
        } else {
          if mid < target { Increasing(text, mid, target); }
          hi := mid;
        }
      }
      line := lo;
    }

    method LineLen(starts: seq<nat>, line: nat) returns (len: nat)
      requires Valid() && starts == Starts(text) && line < |starts|
      ensures |starts| == |Lines(text)| && len == |Lines(text)[line]|
    {
      StartsFit(text, |text|);
      assert LineSits(text, Lines(text), starts, |text|, line);
      var end := if line + 1 < |starts| then starts[line + 1] - 1 else |text|;
      len := Max(end - starts[line], 0);
    }

    method CursorColumn(starts: seq<nat>, line: nat) returns (column: nat)
      requires Valid() && starts == Starts(text) && line == Line(text, cursor) < |starts|
      ensures line < |Lines(text)|
      ensures column == Column(text, cursor) && column <= |Lines(text)[line]|
    {
      LineIsInside(text, cursor);
      ColumnInLine(text, cursor);
      column := Max(cursor - starts[line], 0);
    }

    method PlaceCursor(starts: seq<nat>, line: nat, column: nat)
      requires Valid() && starts == Starts(text)
      modifies this`cursor
      ensures Valid()
      ensures var l := Min(line, |Lines(text)| - 1);
        At(l, Min(column, |Lines(text)[l]|))
    {
      StartsFit(text, |text|);
      var l := Min(line, |starts| - 1);
      var len := LineLen(starts, l);
      OffsetOf(text, l, Min(column, len));
      cursor := starts[l] + Min(column, len);
    }

    /** A byte goes in before the cursor; InsertedIn says which line it changes
        and how. A full buffer takes none. */
    method InsertByte(b: byte)
      requires Valid()
      modifies this
      ensures Valid()
      ensures |old(text)| == MAX_FILE ==> text == old(text) && cursor == old(cursor) && modified == old(modified)
      ensures |old(text)| < MAX_FILE ==> modified && text == Inserted(old(text), old(cursor), b) && cursor == old(cursor) + 1
    {
      if |text| >= MAX_FILE { return; }
      text := text[..cursor] + [b] + text[cursor..];
      cursor := cursor + 1;
      modified := true;
    }

    /** As much of a string as there is room for. */
    method InsertStr(s: seq<byte>)
      requires Valid()
      modifies this
      ensures Valid()
      ensures var n := Room(old(text), |s|);
        && text == Spliced(old(text), old(cursor), s, n) && cursor == old(cursor) + n
        && modified == (old(modified) || n > 0)
    {
      var i := 0;
      while i < |s|
        invariant 0 <= i <= |s| && Valid()
        invariant var n := Room(old(text), i);
          && text == Spliced(old(text), old(cursor), s, n) && cursor == old(cursor) + n
          && modified == (old(modified) || n > 0)
      {
        if |text| < MAX_FILE { SpliceOne(old(text), old(cursor), s, i); }
        InsertByte(s[i]);
        i := i + 1;
      }
    }

    /** The byte before the cursor goes out; RemovedFrom says what that does to
        the lines. */
    method DeleteBefore()
      requires Valid()
      modifies this
      ensures Valid()
      ensures old(cursor) == 0 ==> text == old(text) && cursor == 0 && modified == old(modified)
      ensures old(cursor) > 0 ==> modified && cursor == old(cursor) - 1 && text == Removed(old(text), cursor)
    {
      if cursor == 0 { return; }
      cursor := cursor - 1;
      text := text[..cursor] + text[cursor + 1..];
      modified := true;
    }

    method DeleteAt()
      requires Valid()
      modifies this
      ensures Valid() && cursor == old(cursor)
      ensures cursor == |old(text)| ==> text == old(text) && modified == old(modified)
      ensures cursor < |old(text)| ==> modified && text == Removed(old(text), cursor)
    {
      if cursor < |text| {
        text := text[..cursor] + text[cursor + 1..];
        modified := true;
      }
    }

    /** Removes the cursor's line with its separator. A last line that has one
        before it is left alone; an only line is emptied. */
    method DeleteLine()
      requires Valid()
      modifies this
      ensures Valid()
      ensures var l, lines := Line(old(text), old(cursor)), Lines(old(text));
        if l + 1 < |lines| then
          modified && Lines(text) == lines[..l] + lines[l + 1..] && At(l, 0)
        else if l > 0 then
          modified == old(modified) && text == old(text) && cursor == old(cursor)
        else
          modified == (old(modified) || old(text) != []) && text == [] && cursor == 0
    {
      var starts := LineStarts();
      var line := CursorLine(starts);
      LineIsInside(text, cursor);
      OffsetOf(text, line, 0);
      StartsFit(text, |text|);
      var start := starts[line];
      var end := if line + 1 < |starts| then starts[line + 1] else if start > 0 then start - 1 else |text|;
      if line + 1 < |starts| { LineCutOut(text, line); }
      if line > 0 { Increasing(text, 0, line); }
      if start < end {
        text := text[..start] + text[Min(end, |text|)..];
        cursor := Min(start, |text|);
        modified := true;
      }
    }

    method MoveUp()
      requires Valid()
      modifies this`cursor
      ensures Valid()
      ensures var l, c := Line(text, old(cursor)), Column(text, old(cursor));
        if l > 0 then l < |Lines(text)| && At(l - 1, Min(c, |Lines(text)[l - 1]|)) else cursor == old(cursor)
    {
      var starts := LineStarts();
      var line := CursorLine(starts);
      if line > 0 {
        var column := CursorColumn(starts, line);
        PlaceCursor(starts, line - 1, column);
      }
    }

    method MoveDown()
      requires Valid()
      modifies this`cursor
      ensures Valid()
      ensures var l, c := Line(text, old(cursor)), Column(text, old(cursor));
        if l + 1 < |Lines(text)| then At(l + 1, Min(c, |Lines(text)[l + 1]|)) else cursor == old(cursor)
    {
      var starts := LineStarts();
      var line := CursorLine(starts);
      if line + 1 < |starts| {
        var column := CursorColumn(starts, line);
        PlaceCursor(starts, line + 1, column);
      }
    }

    method MoveHome()
      requires Valid()
      modifies this`cursor
      ensures Valid() && At(Line(text, old(cursor)), 0)
    {
      var starts := LineStarts();
      var line := CursorLine(starts);
      PlaceCursor(starts, line, 0);
    }

    method MoveEnd()
      requires Valid()
      modifies this`cursor
      ensures Valid()
      ensures var l := Line(text, old(cursor)); l < |Lines(text)| && At(l, |Lines(text)[l]|)
    {
      var starts := LineStarts();
      var line := CursorLine(starts);
      var len := LineLen(starts, line);
      PlaceCursor(starts, line, len);
    }

    method MoveLines(delta: int)
      requires Valid()
      modifies this`cursor
      ensures Valid()
      ensures var l, c := Line(text, old(cursor)), Column(text, old(cursor));
        var target := Max(0, Min(l + delta, |Lines(text)| - 1));
        At(target, Min(c, |Lines(text)[target]|))
    {
      var starts := LineStarts();
      var line := CursorLine(starts);
      var column := CursorColumn(starts, line);
      PlaceCursor(starts, Max(0, Min(line + delta, |starts| - 1)), column);
    }

    /** The line and column of the cursor, and the bytes of its line. */
    method CursorBytes(starts: seq<nat>) returns (line: nat, column: nat, bytes: seq<byte>)
      requires Valid() && starts == Starts(text)
      ensures line == Line(text, cursor) && column == Column(text, cursor) && line < |Lines(text)|
      ensures bytes == Lines(text)[line] && column <= |bytes|
    {
      line := CursorLine(starts);
      column := CursorColumn(starts, line);
      var len := LineLen(starts, line);
      StartsFit(text, |text|);
      assert LineSits(text, Lines(text), starts, |text|, line);
      bytes := text[starts[line]..starts[line] + len];
    }

    method WordLeft()
      requires Valid()
      modifies this`cursor
      ensures Valid()
      ensures var l := Line(text, old(cursor));
        && l < |Lines(text)| && Line(text, cursor) == l
        && WordLeftOf(Lines(text)[l], Column(text, old(cursor)), Column(text, cursor))
    {
      var starts := LineStarts();
      var line, column, bytes := CursorBytes(starts);
      var c := ScanWordLeft(bytes, column);
      PlaceCursor(starts, line, c);
    }

    method WordRight()
      requires Valid()
      modifies this`cursor
      ensures Valid()
      ensures var l := Line(text, old(cursor));
        && l < |Lines(text)| && Line(text, cursor) == l
        && WordRightOf(Lines(text)[l], Column(text, old(cursor)), Column(text, cursor))
    {
      var starts := LineStarts();
      var line, column, bytes := CursorBytes(starts);
      var c := ScanWordRight(bytes, column);
      PlaceCursor(starts, line, c);
    }

    /** A byte put in and taken back leaves text and cursor as they were. */
    method InsertThenBackspace(b: byte)
      requires Valid() && |text| < MAX_FILE
      modifies this
      ensures Valid() && text == old(text) && cursor == old(cursor)
    {
      InsertRemove(text, cursor, b);
      InsertByte(b);
      DeleteBefore();
    }
  }

  /** There is only one place a word move can go to. */
  lemma OneWordLeft(line: seq<byte>, c: nat, r: nat, r': nat)
    requires WordLeftOf(line, c, r) && WordLeftOf(line, c, r')
    ensures r == r'
  {
    var m: nat :| WordLeftVia(line, c, m, r);
    var m': nat :| WordLeftVia(line, c, m', r');
    assert m == m';
  }

  lemma OneWordRight(line: seq<byte>, c: nat, r: nat, r': nat)
    requires WordRightOf(line, c, r) && WordRightOf(line, c, r')
    ensures r == r'
  {
    var m: nat :| WordRightVia(line, c, m, r);
    var m': nat :| WordRightVia(line, c, m', r');
    assert m == m';
  }
}
