/** A text as a list of lines, and where an offset lies in it: the view that
    kernel/src/commands/edit.rs keeps of its flat buffer. */
module TextLines {
  import opened Wire

  const NL: byte := 10

  /** The lines once another byte has come. */
  function After(lines: seq<seq<byte>>, b: byte): (more: seq<seq<byte>>)
    requires |lines| >= 1
    ensures |more| >= 1
  {
    if b == NL then lines + [[]] else lines[|lines| - 1 := lines[|lines| - 1] + [b]]
  }

  /** The lines that the separators among the first n bytes make of them. There
      is always at least one. */
  function LinesUpTo(text: seq<byte>, n: nat): (lines: seq<seq<byte>>)
    requires n <= |text|
    ensures |lines| >= 1
  {
    if n == 0 then [[]]
    else After(LinesUpTo(text, n - 1), text[n - 1])
  }

  /** The offsets at which they start. */
  function StartsUpTo(text: seq<byte>, n: nat): (starts: seq<nat>)
    requires n <= |text|
    ensures |starts| >= 1
  {
    if n == 0 then [0]
    else
      var before := StartsUpTo(text, n - 1);
      if text[n - 1] == NL then before + [n] else before
  }

  function Lines(text: seq<byte>): (lines: seq<seq<byte>>)
    ensures |lines| >= 1
  {
    LinesUpTo(text, |text|)
  }

  function Starts(text: seq<byte>): (starts: seq<nat>)
    ensures |starts| >= 1
  {
    StartsUpTo(text, |text|)
  }

  function Last<T>(s: seq<T>): T
    requires |s| > 0
  {
    s[|s| - 1]
  }

  /** The line and column of an offset: those of the end of the text before it. */
  function Line(text: seq<byte>, at: nat): nat
    requires at <= |text|
  {
    |LinesUpTo(text, at)| - 1
  }

  function Column(text: seq<byte>, at: nat): nat
    requires at <= |text|
  {
    |Last(LinesUpTo(text, at))|
  }

  /** The last line of the first list runs on into the first line of the second. */
  function Glue(a: seq<seq<byte>>, b: seq<seq<byte>>): (g: seq<seq<byte>>)
    requires |a| >= 1 && |b| >= 1
    ensures |g| == |a| + |b| - 1
  {
    a[..|a| - 1] + [Last(a) + b[0]] + b[1..]
  }

  lemma GlueSnoc(a: seq<seq<byte>>, b: seq<seq<byte>>, x: byte)
    requires |a| >= 1 && |b| >= 1
    ensures Glue(a, After(b, x)) == After(Glue(a, b), x)
  {
    if |b| == 1 {
      assert Last(a) + (b[0] + [x]) == Last(a) + b[0] + [x];
    }
  }

  lemma GlueNothing(a: seq<seq<byte>>)
    requires |a| >= 1
    ensures Glue(a, [[]]) == a
  {
    assert Last(a) + [] == Last(a);
  }

  /** Texts that agree on their first n bytes agree on the lines of these. */
  lemma {:induction false} SamePrefix(text: seq<byte>, other: seq<byte>, n: nat)
    requires n <= |text| && n <= |other| && forall i :: 0 <= i < n ==> text[i] == other[i]
    ensures LinesUpTo(text, n) == LinesUpTo(other, n) && StartsUpTo(text, n) == StartsUpTo(other, n)
  {
    if n > 0 {
      SamePrefix(text, other, n - 1);
    }
  }

  /** Splitting a text anywhere splits one line. */
  lemma {:induction false} LinesSplit(text: seq<byte>, at: nat, tail: seq<byte>, k: nat)
    requires at + k <= |text| && k <= |tail| && forall j :: at <= j < at + k ==> text[j] == tail[j - at]
    ensures LinesUpTo(text, at + k) == Glue(LinesUpTo(text, at), LinesUpTo(tail, k))
  {
    if k == 0 {
      GlueNothing(LinesUpTo(text, at));
    } else {
      LinesSplit(text, at, tail, k - 1);
      assert text[at + k - 1] == tail[k - 1];
      NextByte(text, at + k - 1, at + k);
      NextByte(tail, k - 1, k);
      GlueSnoc(LinesUpTo(text, at), LinesUpTo(tail, k - 1), tail[k - 1]);
    }
  }

  /** Line k starts at starts[k], and a separator follows it unless it is the
      last, which ends at n. */
  predicate LineSits(text: seq<byte>, lines: seq<seq<byte>>, starts: seq<nat>, n: nat, k: nat)
    requires k < |lines| == |starts| && n <= |text|
  {
    && starts[k] + |lines[k]| <= n
    && text[starts[k]..starts[k] + |lines[k]|] == lines[k]
    && (if k + 1 < |starts| then starts[k + 1] == starts[k] + |lines[k]| + 1 else starts[k] + |lines[k]| == n)
  }

  predicate Fits(text: seq<byte>, lines: seq<seq<byte>>, starts: seq<nat>, n: nat)
    requires n <= |text|
  {
    |lines| == |starts| && forall k :: 0 <= k < |lines| ==> LineSits(text, lines, starts, n, k)
  }

  lemma {:induction false} StartsFit(text: seq<byte>, n: nat)
    requires n <= |text|
    ensures Fits(text, LinesUpTo(text, n), StartsUpTo(text, n), n) && StartsUpTo(text, n)[0] == 0
  {
    if n > 0 {
      StartsFit(text, n - 1);
      FitsSnoc(text, LinesUpTo(text, n - 1), StartsUpTo(text, n - 1), n - 1, n);
    }
  }

  lemma FitsSnoc(text: seq<byte>, lines: seq<seq<byte>>, starts: seq<nat>, n: nat, end: nat)
    requires n < |text| && end == n + 1 && |lines| >= 1 && Fits(text, lines, starts, n)
    ensures text[n] == NL ==> Fits(text, lines + [[]], starts + [end], end)
    ensures text[n] != NL ==> Fits(text, lines[|lines| - 1 := Last(lines) + [text[n]]], starts, end)
  {
    if text[n] == NL {
      var more, ends := lines + [[]], starts + [end];
      forall k | 0 <= k < |more| ensures LineSits(text, more, ends, end, k) {
        if k < |lines| { assert LineSits(text, lines, starts, n, k); }
      }
    } else {
      var longer := lines[|lines| - 1 := Last(lines) + [text[n]]];
      forall k | 0 <= k < |lines| ensures LineSits(text, longer, starts, end, k) {
        assert LineSits(text, lines, starts, n, k);
        if k == |lines| - 1 {
          assert text[starts[k]..end] == text[starts[k]..n] + [text[n]];
        }
      }
    }
  }

  /** Everything up to an offset keeps its starts; the rest start later. */
  lemma {:induction false} StartsGrow(text: seq<byte>, m: nat, n: nat)
    requires m <= n <= |text|
    ensures StartsUpTo(text, m) <= StartsUpTo(text, n)
    ensures forall k :: |StartsUpTo(text, m)| <= k < |StartsUpTo(text, n)| ==> StartsUpTo(text, n)[k] > m
    decreases n
  {
    if m < n {
      StartsGrow(text, m, n - 1);
    }
  }

  /** Lines that ended before an offset are as they will be; the one that had
      begun goes on. */
  lemma {:induction false} LinesGrow(text: seq<byte>, m: nat, n: nat)
    requires m <= n <= |text|
    ensures var a, b := LinesUpTo(text, m), LinesUpTo(text, n);
      |a| <= |b| && Last(a) <= b[|a| - 1]
    decreases n
  {
    if m < n {
      LinesGrow(text, m, n - 1);
    }
  }

  lemma Increasing(text: seq<byte>, i: nat, j: nat)
    requires i < j < |Starts(text)|
    ensures Starts(text)[i] < Starts(text)[j] <= |text|
  {
    StartsFit(text, |text|);
    IncreasingSteps(text, Lines(text), Starts(text), i, j);
  }

  lemma {:induction false} IncreasingSteps(text: seq<byte>, lines: seq<seq<byte>>, starts: seq<nat>, i: nat, j: nat)
    requires Fits(text, lines, starts, |text|) && i < j < |starts|
    ensures starts[i] < starts[j] <= |text|
    decreases j - i
  {
    assert LineSits(text, lines, starts, |text|, i) && LineSits(text, lines, starts, |text|, j);
    if i + 1 < j { IncreasingSteps(text, lines, starts, i + 1, j); }
  }

  /** The line of an offset is the one whose bytes, or end, it is at. */
  predicate Inside(text: seq<byte>, at: nat, line: nat) {
    && line < |Starts(text)| && Starts(text)[line] <= at <= |text|
    && (line + 1 < |Starts(text)| ==> at < Starts(text)[line + 1])
  }

  lemma LineIsInside(text: seq<byte>, at: nat)
    requires at <= |text|
    ensures Inside(text, at, Line(text, at)) && Column(text, at) == at - Starts(text)[Line(text, at)]
  {
    StartsGrow(text, at, |text|);
    StartsFit(text, at);
    assert LineSits(text, LinesUpTo(text, at), StartsUpTo(text, at), at, Line(text, at));
  }

  /** Exactly one line holds an offset. */
  lemma OneLine(text: seq<byte>, at: nat, line: nat)
    requires at <= |text|
    ensures Inside(text, at, line) <==> line == Line(text, at)
  {
    LineIsInside(text, at);
    var l := Line(text, at);
    if Inside(text, at, line) && line != l {
      if line < l {
        if line + 1 < l { Increasing(text, line + 1, l); }
      } else {
        if l + 1 < line { Increasing(text, l + 1, line); }
      }
      assert false;
    }
  }

  /** Line and column determine the offset, and every column up to the end of
      the line is one. */
  lemma OffsetOf(text: seq<byte>, line: nat, column: nat)
    requires line < |Lines(text)| && column <= |Lines(text)[line]|
    ensures |Starts(text)| == |Lines(text)|
    ensures var at := Starts(text)[line] + column;
      at <= |text| && Line(text, at) == line && Column(text, at) == column
  {
    StartsFit(text, |text|);
    assert LineSits(text, Lines(text), Starts(text), |text|, line);
    var at := Starts(text)[line] + column;
    OneLine(text, at, line);
    LineIsInside(text, at);
  }

  lemma ColumnInLine(text: seq<byte>, at: nat)
    requires at <= |text|
    ensures Line(text, at) < |Lines(text)| && Column(text, at) <= |Lines(text)[Line(text, at)]|
    ensures Last(LinesUpTo(text, at)) <= Lines(text)[Line(text, at)]
  {
    LinesGrow(text, at, |text|);
  }

  function Inserted(text: seq<byte>, at: nat, x: byte): seq<byte>
    requires at <= |text|
  {
    text[..at] + [x] + text[at..]
  }

  function Removed(text: seq<byte>, at: nat): seq<byte>
    requires at < |text|
  {
    text[..at] + text[at + 1..]
  }

  /** One byte more, in line l before column c: a separator cuts the line in
      two there, anything else goes into it. */
  function LinesInserted(lines: seq<seq<byte>>, l: nat, c: nat, x: byte): seq<seq<byte>>
    requires l < |lines| && c <= |lines[l]|
  {
    if x == NL then lines[..l] + [lines[l][..c], lines[l][c..]] + lines[l + 1..]
    else lines[l := lines[l][..c] + [x] + lines[l][c..]]
  }

  lemma GlueInserted(a: seq<seq<byte>>, b: seq<seq<byte>>, x: byte)
    requires |a| >= 1 && |b| >= 1
    ensures LinesInserted(Glue(a, b), |a| - 1, |Last(a)|, x) ==
      Glue(After(a, x), b)
  {
    var g, l, c := Glue(a, b), |a| - 1, |Last(a)|;
    assert g[l] == Last(a) + b[0] && g[l][..c] == Last(a) && g[l][c..] == b[0];
    assert g[..l] == a[..l] && g[l + 1..] == b[1..];
    if x == NL {
      var halves := [g[l][..c], g[l][c..]];
      assert (a + [[]])[..l + 1] == a && a[..l] + [Last(a)] == a && [] + b[0] == b[0];
      assert a[..l] + halves == a + [b[0]];
    } else {
      assert a[l := Last(a) + [x]][..l] == a[..l];
    }
  }

  lemma InsertedIn(text: seq<byte>, at: nat, x: byte)
    requires at <= |text|
    ensures var l, c, after := Line(text, at), Column(text, at), Inserted(text, at, x);
      && l < |Lines(text)| && c <= |Lines(text)[l]|
      && Lines(after) == LinesInserted(Lines(text), l, c, x)
      && Line(after, at + 1) == (if x == NL then l + 1 else l) && Column(after, at + 1) == (if x == NL then 0 else c + 1)
  {
    InsertedSplit(text, Inserted(text, at, x), at, x, text[at..]);
    ColumnInLine(text, at);
  }

  lemma InsertedSplit(text: seq<byte>, after: seq<byte>, at: nat, x: byte, tail: seq<byte>)
    requires |text| == at + |tail| && |after| == |text| + 1 && after[at] == x
    requires forall j :: 0 <= j < at ==> after[j] == text[j]
    requires forall j :: at <= j < |text| ==> text[j] == tail[j - at]
    requires forall j :: at + 1 <= j < |after| ==> after[j] == tail[j - (at + 1)]
    ensures LinesUpTo(after, at + 1) == After(LinesUpTo(text, at), x)
    ensures var l, c := Line(text, at), Column(text, at);
      l < |Lines(text)| && c <= |Lines(text)[l]| && Lines(after) == LinesInserted(Lines(text), l, c, x)
  {
    SamePrefix(text, after, at);
    NextByte(after, at, at + 1);
    SplitEnd(text, at, tail);
    SplitEnd(after, at + 1, tail);
    GlueInserted(LinesUpTo(text, at), Lines(tail), x);
  }

  lemma NextByte(text: seq<byte>, n: nat, end: nat)
    requires n < |text| && end == n + 1
    ensures LinesUpTo(text, end) == After(LinesUpTo(text, n), text[n])
  {
  }

  lemma SplitEnd(text: seq<byte>, at: nat, tail: seq<byte>)
    requires |text| == at + |tail| && forall j :: at <= j < |text| ==> text[j] == tail[j - at]
    ensures Lines(text) == Glue(LinesUpTo(text, at), Lines(tail))
  {
    LinesSplit(text, at, tail, |tail|);
  }

  /** The byte at `at` was put where it is; taking it out undoes that. */
  lemma RemovedFrom(text: seq<byte>, at: nat)
    requires at < |text|
    ensures var l, c, after := Line(text, at), Column(text, at), Removed(text, at);
      && l < |Lines(after)| && c <= |Lines(after)[l]|
      && Lines(text) == LinesInserted(Lines(after), l, c, text[at])
      && Line(after, at) == l && Column(after, at) == c
      && Line(text, at + 1) == (if text[at] == NL then l + 1 else l) && Column(text, at + 1) == (if text[at] == NL then 0 else c + 1)
  {
    var after := Removed(text, at);
    PutBack(text, at);
    InsertedIn(after, at, text[at]);
    SamePrefix(text, after, at);
  }

  lemma PutBack(text: seq<byte>, at: nat)
    requires at < |text|
    ensures Inserted(Removed(text, at), at, text[at]) == text
  {
    var after := Removed(text, at);
    assert after[..at] == text[..at] && after[at..] == text[at + 1..];
  }

  lemma GlueEmpty(a: seq<seq<byte>>, b: seq<seq<byte>>)
    requires |a| >= 1 && |b| >= 1 && Last(a) == []
    ensures Glue(a, b) == a[..|a| - 1] + b && a == a[..|a| - 1] + [[]]
    ensures Glue(a, b)[..|a| - 1] == a[..|a| - 1] && Glue(a, b)[|a| - 1..] == b
  {
    assert [] + b[0] == b[0];
    assert b == [b[0]] + b[1..];
  }

  lemma GlueAtLine(a: seq<seq<byte>>, b: seq<seq<byte>>, l: nat)
    requires |a| == l + 1 && |b| >= 1 && |Last(a)| == 0
    ensures a == Glue(a, b)[..l] + [[]] && b == Glue(a, b)[l..]
  {
    GlueEmpty(a, b);
  }

  /** Cutting a text at the start of line l. */
  lemma CutAtLine(text: seq<byte>, at: nat, l: nat)
    requires at <= |text| && Line(text, at) == l && Column(text, at) == 0
    ensures l <= |Lines(text)| && LinesUpTo(text, at) == Lines(text)[..l] + [[]] && Lines(text[at..]) == Lines(text)[l..]
  {
    LinesSplit(text, at, text[at..], |text| - at);
    GlueAtLine(LinesUpTo(text, at), Lines(text[at..]), l);
  }

  /** The text without line l and the separator after it. */
  lemma LineCutOut(text: seq<byte>, l: nat)
    requires l + 1 < |Lines(text)|
    ensures |Starts(text)| == |Lines(text)| && Starts(text)[l] < Starts(text)[l + 1] <= |text|
    ensures var at := Starts(text)[l];
      var after := text[..at] + text[Starts(text)[l + 1]..];
      && Lines(after) == Lines(text)[..l] + Lines(text)[l + 1..]
      && Line(after, at) == l && Column(after, at) == 0
  {
    OffsetOf(text, l, 0);
    OffsetOf(text, l + 1, 0);
    Increasing(text, l, l + 1);
    var at, next := Starts(text)[l], Starts(text)[l + 1];
    CutAtLine(text, at, l);
    CutAtLine(text, next, l + 1);
    JoinAfterCut(text, at, text[next..], Lines(text)[..l]);
  }

  lemma JoinAfterCut(text: seq<byte>, at: nat, rest: seq<byte>, before: seq<seq<byte>>)
    requires at <= |text| && LinesUpTo(text, at) == before + [[]]
    ensures var after := text[..at] + rest;
      Lines(after) == before + Lines(rest) && Line(after, at) == |before| && Column(after, at) == 0
  {
    var after := text[..at] + rest;
    SamePrefix(text, after, at);
    LinesSplit(after, at, rest, |rest|);
    GlueBehind(before, Lines(rest));
  }

  lemma GlueBehind(before: seq<seq<byte>>, b: seq<seq<byte>>)
    requires |b| >= 1
    ensures Glue(before + [[]], b) == before + b
  {
    GlueEmpty(before + [[]], b);
    assert (before + [[]])[..|before|] == before;
  }
}
