/** What the check and the lossy reading of bytes say about text: the valid
    part is the longest beginning that is text, an unfinished end can still
    become text, a broken one cannot, and one replacement character stands for
    as many bytes as could have begun a character. */
module Utf8Laws {
  import opened CatPrint
  import opened Utf8
  import opened Wire

  lemma {:induction false} ValidPart(s: seq<byte>)
    ensures Validate(s[..Validate(s).valid]).verdict == Clean
  {
    if s != [] && First(s).Complete? {
      var n, v := First(s).n, Validate(s[First(s).n..]).valid;
      ValidPart(s[n..]);
      CutFirst(s, n, v);
    }
  }

  lemma CutFirst(s: seq<byte>, n: nat, v: nat)
    requires s != [] && First(s) == Complete(n) && n + v <= |s|
    ensures First(s[..n + v]) == Complete(n) && s[..n + v][n..] == s[n..][..v]
  {
  }

  /** No longer beginning is text. */
  lemma {:induction false} ValidIsLongest(s: seq<byte>, n: nat)
    requires n <= |s| && Validate(s[..n]).verdict == Clean
    ensures n <= Validate(s).valid
  {
    ValidateAppend(s[..n], s[n..]);
    assert s[..n] + s[n..] == s;
  }

  /** The bytes are the beginning of some text. */
  ghost predicate BeginsText(s: seq<byte>) {
    exists more: seq<byte>, text: string :: s + more == Encode(text)
  }

  /** What could finish a character that has been cut. */
  function Finish(s: seq<byte>): seq<byte>
    requires s != []
  {
    var second: byte := if s[0] == 0xE0 then 0xA0 else if s[0] == 0xF0 then 0x90 else 0x80;
    var w := Width(s[0]);
    if |s| >= w then [] else if |s| == 1 then [second] + seq(w - 2, _ => 0x80) else seq(w - |s|, _ => 0x80)
  }

  lemma Finished(s: seq<byte>)
    requires s != [] && First(s).Cut?
    ensures First(s + Finish(s)) == Complete(|s + Finish(s)|)
  {
  }

  /** The check tells bytes that can go on as text from bytes that cannot. */
  lemma BrokenIffNoText(s: seq<byte>)
    ensures Validate(s).verdict == Broken <==> !BeginsText(s)
  {
    if Validate(s).verdict == Broken {
      forall more: seq<byte>, text: string ensures s + more != Encode(text) {
        BrokenStays(s, more);
        EncodedIsClean(text);
      }
    } else {
      var more := Continuing(s);
      var text := CleanIsEncoded(s + more);
      assert s + more == Encode(text);
    }
  }

  lemma Continuing(s: seq<byte>) returns (more: seq<byte>)
    requires Validate(s).verdict != Broken
    ensures Validate(s + more).verdict == Clean
  {
    var rest := s[Validate(s).valid..];
    RestIsPartial(s);
    if rest == [] {
      more := [];
      assert s + more == s;
    } else {
      more := Finish(rest);
      Finished(rest);
      ValidateAppend(s, more);
      assert (rest + more)[|rest + more|..] == [];
    }
  }

  lemma BeginningBegins(s: seq<byte>, n: nat)
    requires n <= |s| && BeginsText(s)
    ensures BeginsText(s[..n])
  {
    var more: seq<byte>, text: string :| s + more == Encode(text);
    assert s[..n] + (s[n..] + more) == Encode(text);
  }

  /** What is printed of a file, as text, and when the notice comes. */
  lemma PrintedIsText(file: seq<byte>, first: nat)
    requires first <= |file|
    ensures var out := Output(file, first);
      && (out.notice == Instead <==> !BeginsText(file[..first]))
      && (out.notice == After <==> BeginsText(file[..first]) && !BeginsText(file))
      && (out.notice == Instead ==> out.text == [])
      && (out.notice == After ==> IsLongestText(file, out.text))
      && (out.notice == NoNotice ==> exists text :: IsLongestText(file, text) && out.text == Ended(text))
  {
    BrokenIffNoText(file[..first]);
    BrokenIffNoText(file);
    LongestText(file);
    if BeginsText(file) { BeginningBegins(file, first); }
    assert IsLongestText(file, file[..Validate(file).valid]);
  }

  /** A newline at the end, and only one more if it was missing. */
  function Ended(text: seq<byte>): seq<byte> {
    if text == [] || text[|text| - 1] == 10 then text else text + [10]
  }

  /** The longest beginning of the file that encodes a text. */
  ghost predicate IsLongestText(file: seq<byte>, part: seq<byte>) {
    && part <= file && (exists text: string :: Encode(text) == part)
    && forall n: nat, text: string :: n <= |file| && Encode(text) == file[..n] ==> n <= |part|
  }

  lemma LongestText(file: seq<byte>)
    ensures IsLongestText(file, file[..Validate(file).valid])
  {
    ValidPart(file);
    var text := CleanIsEncoded(file[..Validate(file).valid]);
    forall n: nat, text: string | n <= |file| && Encode(text) == file[..n] ensures n <= Validate(file).valid {
      EncodedIsClean(text);
      ValidIsLongest(file, n);
    }
  }

  // ---- replacement characters ----

  /** A text read behind another is read by itself. */
  lemma {:induction false} LossyBehind(text: string, rest: seq<byte>)
    ensures Lossy(Encode(text) + rest) == text + Lossy(rest)
  {
    if text == "" {
      assert Encode(text) + rest == rest && text + Lossy(rest) == Lossy(rest);
    } else {
      var b, tail := EncodeChar(text[0]), Encode(text[1..]) + rest;
      Regroup(b, Encode(text[1..]), rest);
      EncodedCharComplete(text[0], tail);
      assert (b + tail)[..|b|] == b && (b + tail)[|b|..] == tail;
      EncodeCharInjective(text[0], DecodeFirst(b + tail));
      LossyBehind(text[1..], rest);
      Regroup([text[0]], text[1..], Lossy(rest));
      assert [text[0]] + text[1..] == text;
    }
  }

  /** Bytes that are no character are replaced up to the first that could not
      have gone on, but at least one. */
  lemma ReplacedPart(s: seq<byte>)
    requires s != [] && First(s).Bad?
    ensures var n := BadLength(s);
      && 0 < n <= |s| && Lossy(s) == [0xFFFD as char] + Lossy(s[n..])
      && (n == 1 || First(s[..n]).Cut?) && (n < |s| ==> First(s[..n + 1]).Bad?)
  {
  }

  /** A cut character at the end is replaced by one. */
  lemma ReplacedEnd(s: seq<byte>)
    requires s != [] && First(s).Cut?
    ensures Lossy(s) == [0xFFFD as char]
  {
  }

  /** The first bytes and the values of the shortest and longest characters of
      each length. */
  lemma LengthOf(c: char)
    ensures |EncodeChar(c)| == if c < 0x80 as char then 1 else if c < 0x800 as char then 2 else if c < 0x1_0000 as char then 3 else 4
    ensures EncodeChar('A') == [0x41] && EncodeChar(0xE9 as char) == [0xC3, 0xA9] && EncodeChar(0x20AC as char) == [0xE2, 0x82, 0xAC]
    ensures EncodeChar(0x1_F600 as char) == [0xF0, 0x9F, 0x98, 0x80]
  {
  }
}
