/** The system-use bytes of a directory record and the Rock Ridge names in
    them (section 4.1.4 of the Rock Ridge Interchange Protocol), as
    kernel/src/fs/iso9660.rs reads them. */
module IsoSystemUse {
  import opened IsoNames
  import opened Wire
  import Utf8

  /** One entry: a part of the name, or anything else, `NM` entries without
      a body or with one that is no text included. */
  datatype Field =
    | Part(version: byte, flags: byte, text: string)
    | Other(tag: seq<byte>, version: byte, body: seq<byte>)

  const NM: seq<byte> := [0x4E, 0x4D]

  function FieldBytes(f: Field): seq<byte> {
    match f
    case Part(version, flags, text) => NM + [(5 + |Utf8.Encode(text)|) % 0x100, version, flags] + Utf8.Encode(text)
    case Other(tag, version, body) => tag + [(4 + |body|) % 0x100, version] + body
  }

  predicate FieldFits(f: Field) {
    match f
    case Part(_, _, text) => 5 + |Utf8.Encode(text)| < 0x100
    case Other(tag, _, body) =>
      |tag| == 2 && 4 + |body| < 0x100 && (tag == NM && body != [] ==> !Utf8.Validate(body[1..]).verdict.Clean?)
  }

  function Entries(fields: seq<Field>): (entries: seq<seq<byte>>)
    ensures |entries| == |fields| && forall k :: 0 <= k < |fields| ==> entries[k] == FieldBytes(fields[k])
  {
    seq(|fields|, k requires 0 <= k < |fields| => FieldBytes(fields[k]))
  }

  /** The part says that another one follows. */
  predicate Continued(f: Field) {
    f.Part? && f.flags % 2 == 1
  }

  function TextOf(f: Field): string {
    if f.Part? then f.text else ""
  }

  /** From byte i on lie the entries from number n on, each with its length in
      its third byte, and then nothing that could be another one. */
  predicate EntriesAt(sys: seq<byte>, i: nat, entries: seq<seq<byte>>, n: nat)
    requires n <= |entries|
    decreases |entries| - n
  {
    if n == |entries| then i + 4 > |sys| || sys[i + 2] < 4 || i + sys[i + 2] > |sys|
    else
      var e := entries[n];
      |e| >= 4 && e[2] == |e| && i + |e| <= |sys| && sys[i..i + |e|] == e && EntriesAt(sys, i + |e|, entries, n + 1)
  }

  /** The system-use bytes are these fields. */
  predicate Consists(sys: seq<byte>, fields: seq<Field>) {
    (forall k :: 0 <= k < |fields| ==> FieldFits(fields[k])) && EntriesAt(sys, 0, Entries(fields), 0)
  }

  /** The name the fields from number n on carry. */
  function NameCarried(fields: seq<Field>, n: nat): string
    requires n <= |fields|
    decreases |fields| - n
  {
    if n == |fields| then "" else TextOf(fields[n]) + NameCarried(fields, n + 1)
  }

  /** What is read of a field: a part that says another one follows is
      dropped. */
  function KeptText(f: Field): string {
    if Continued(f) then "" else TextOf(f)
  }

  function NameKept(fields: seq<Field>, n: nat): string
    requires n <= |fields|
    decreases |fields| - n
  {
    if n == |fields| then "" else KeptText(fields[n]) + NameKept(fields, n + 1)
  }

  lemma FieldRead(f: Field)
    requires FieldFits(f)
    ensures EntryText(FieldBytes(f), FromUtf8()) == KeptText(f)
  {
    if f.Part? { PartRead(f); } else { OtherRead(f); }
  }

  lemma PartRead(f: Field)
    requires FieldFits(f) && f.Part?
    ensures EntryText(FieldBytes(f), FromUtf8()) == KeptText(f)
  {
    assert FieldBytes(f)[5..] == Utf8.Encode(f.text);
    Utf8.EncodedIsClean(f.text);
    Utf8.LossyEncode(f.text);
  }

  lemma OtherRead(f: Field)
    requires FieldFits(f) && f.Other?
    ensures EntryText(FieldBytes(f), FromUtf8()) == ""
  {
    var entry := FieldBytes(f);
    if f.tag == NM && f.body != [] {
      assert entry[5..] == f.body[1..];
    } else {
      assert entry[..2] == f.tag;
    }
  }

  /** One turn of the walk over the entries. */
  lemma NextField(sys: seq<byte>, read: TextReader, i: nat, entry: seq<byte>, after: string)
    requires |entry| >= 4 && entry[2] == |entry| && i + |entry| <= |sys| && sys[i..i + |entry|] == entry
    requires NmText(sys, read, i + |entry|) == after
    ensures NmText(sys, read, i) == EntryText(entry, read) + after
  {
    assert sys[i + 2] == sys[i..i + |entry|][2];
  }

  /** The texts of the entries from number n on. */
  function Texts(entries: seq<seq<byte>>, read: TextReader, n: nat): string
    requires n <= |entries|
    decreases |entries| - n
  {
    if n == |entries| then "" else EntryText(entries[n], read) + Texts(entries, read, n + 1)
  }

  lemma {:induction false} EntriesRead(sys: seq<byte>, read: TextReader, i: nat, entries: seq<seq<byte>>, n: nat)
    requires n <= |entries| && EntriesAt(sys, i, entries, n)
    ensures NmText(sys, read, i) == Texts(entries, read, n)
    decreases |entries| - n
  {
    if n < |entries| {
      EntriesRead(sys, read, i + |entries[n]|, entries, n + 1);
      NextField(sys, read, i, entries[n], Texts(entries, read, n + 1));
    }
  }

  predicate Says(entries: seq<seq<byte>>, read: TextReader, fields: seq<Field>) {
    |entries| == |fields| && forall k :: 0 <= k < |fields| ==> EntryText(entries[k], read) == KeptText(fields[k])
  }

  lemma {:induction false} TextsKept(entries: seq<seq<byte>>, read: TextReader, fields: seq<Field>, n: nat)
    requires Says(entries, read, fields) && n <= |entries|
    ensures Texts(entries, read, n) == NameKept(fields, n)
    decreases |entries| - n
  {
    if n < |entries| {
      TextsKept(entries, read, fields, n + 1);
    }
  }

  lemma FieldsSay(fields: seq<Field>)
    requires forall k :: 0 <= k < |fields| ==> FieldFits(fields[k])
    ensures Says(Entries(fields), FromUtf8(), fields)
  {
    forall k | 0 <= k < |fields| ensures EntryText(Entries(fields)[k], FromUtf8()) == KeptText(fields[k]) {
      FieldRead(fields[k]);
    }
  }

  /** The Rock Ridge name of system-use bytes is what their uncontinued parts
      say, if they say anything. */
  lemma AreaReads(sys: seq<byte>, fields: seq<Field>)
    requires Consists(sys, fields)
    ensures RockRidgeName(sys, FromUtf8()) == if NameKept(fields, 0) != "" then Some(NameKept(fields, 0)) else None
  {
    FieldsSay(fields);
    EntriesRead(sys, FromUtf8(), 0, Entries(fields), 0);
    TextsKept(Entries(fields), FromUtf8(), fields, 0);
  }

  /** The name read is the name carried exactly when no part that is continued
      has any text; a name cut into several parts is read as its last. */
  lemma WholeNameIff(fields: seq<Field>)
    ensures NameKept(fields, 0) == NameCarried(fields, 0) <==> forall k :: 0 <= k < |fields| && Continued(fields[k]) ==> TextOf(fields[k]) == ""
  {
    WholeFrom(fields, 0);
    forall k | 0 <= k < |fields| ensures KeptText(fields[k]) == TextOf(fields[k]) <==> (Continued(fields[k]) ==> TextOf(fields[k]) == "") {
    }
  }

  lemma {:induction false} WholeFrom(fields: seq<Field>, n: nat)
    requires n <= |fields|
    ensures |NameKept(fields, n)| <= |NameCarried(fields, n)|
    ensures NameKept(fields, n) == NameCarried(fields, n) <==> forall k :: n <= k < |fields| ==> KeptText(fields[k]) == TextOf(fields[k])
    decreases |fields| - n
  {
    if n < |fields| {
      WholeFrom(fields, n + 1);
      JoinSame(KeptText(fields[n]), TextOf(fields[n]), NameKept(fields, n + 1), NameCarried(fields, n + 1));
    }
  }

  lemma JoinSame(a: string, a': string, b: string, b': string)
    requires (a == "" || a == a') && |b| <= |b'|
    ensures |a + b| <= |a' + b'|
    ensures a + b == a' + b' <==> a == a' && b == b'
  {
    if a + b == a' + b' {
      assert |a| == |a'|;
      assert (a + b)[|a|..] == b && (a' + b')[|a|..] == b';
    }
  }

  /** The two parts `ab` and `c` of one name. */
  lemma NameCut(sys: seq<byte>, fields: seq<Field>)
    requires sys == [0x4E, 0x4D, 7, 1, 1, 0x61, 0x62, 0x4E, 0x4D, 6, 1, 0, 0x63] && fields == [Part(1, 1, "ab"), Part(1, 0, "c")]
    ensures Consists(sys, fields) && NameCarried(fields, 0) == "abc" && RockRidgeName(sys, FromUtf8()) == Some("c")
  {
    TwoEntries(sys, fields);
    TwoFields(fields, "ab", "c");
    AreaReads(sys, fields);
  }

  lemma TwoFields(fields: seq<Field>, a: string, b: string)
    requires fields == [Part(1, 1, a), Part(1, 0, b)]
    ensures NameKept(fields, 0) == b && NameCarried(fields, 0) == a + b
  {
    assert NameKept(fields, 2) == "" && NameCarried(fields, 2) == "";
    assert NameKept(fields, 1) == b && NameCarried(fields, 1) == b;
  }

  lemma TwoEntries(sys: seq<byte>, fields: seq<Field>)
    requires sys == [0x4E, 0x4D, 7, 1, 1, 0x61, 0x62, 0x4E, 0x4D, 6, 1, 0, 0x63] && fields == [Part(1, 1, "ab"), Part(1, 0, "c")]
    ensures Consists(sys, fields)
  {
    assert Utf8.Encode("ab") == [0x61, 0x62] && Utf8.Encode("c") == [0x63];
    var entries := Entries(fields);
    assert sys[0..7] == entries[0] && sys[7..13] == entries[1];
    assert EntriesAt(sys, 13, entries, 2) && EntriesAt(sys, 7, entries, 1);
  }

  // ---- any bytes at all are such fields ----

  lemma FieldOf(entry: seq<byte>) returns (f: Field)
    requires 4 <= |entry| < 0x100 && entry[2] == |entry|
    ensures FieldFits(f) && FieldBytes(f) == entry
  {
    if entry[..2] == NM && |entry| > 4 && Utf8.Validate(entry[5..]).verdict.Clean? {
      f := PartOf(entry);
    } else {
      f := OtherOf(entry);
    }
  }

  lemma PartOf(entry: seq<byte>) returns (f: Field)
    requires 5 <= |entry| < 0x100 && entry[2] == |entry| && entry[..2] == NM && Utf8.Validate(entry[5..]).verdict.Clean?
    ensures FieldFits(f) && FieldBytes(f) == entry
  {
    var text := Utf8.CleanIsEncoded(entry[5..]);
    f := Part(entry[3], entry[4], text);
    assert entry == entry[..2] + [entry[2], entry[3], entry[4]] + entry[5..];
  }

  lemma OtherOf(entry: seq<byte>) returns (f: Field)
    requires 4 <= |entry| < 0x100 && entry[2] == |entry|
    requires entry[..2] == NM && |entry| > 4 ==> !Utf8.Validate(entry[5..]).verdict.Clean?
    ensures FieldFits(f) && FieldBytes(f) == entry
  {
    f := Other(entry[..2], entry[3], entry[4..]);
    if |entry| > 4 { assert entry[4..][1..] == entry[5..]; }
    assert entry == entry[..2] + [entry[2], entry[3]] + entry[4..];
  }

  predicate Spell(fields: seq<Field>, entries: seq<seq<byte>>) {
    |fields| == |entries| && forall k :: 0 <= k < |fields| ==> FieldFits(fields[k]) && FieldBytes(fields[k]) == entries[k]
  }

  lemma SpellOneMore(f: Field, fields: seq<Field>, entries: seq<seq<byte>>)
    requires entries != [] && FieldFits(f) && FieldBytes(f) == entries[0] && Spell(fields, entries[1..])
    ensures Spell([f] + fields, entries)
  {
    forall k | 0 < k <= |fields| ensures FieldFits(fields[k - 1]) && FieldBytes(fields[k - 1]) == entries[k] {
      assert entries[1..][k - 1] == entries[k];
    }
  }

  lemma {:induction false} EntriesBehind(sys: seq<byte>, i: nat, first: seq<byte>, entries: seq<seq<byte>>, n: nat)
    requires n <= |entries| && EntriesAt(sys, i, entries, n)
    ensures EntriesAt(sys, i, [first] + entries, n + 1)
    decreases |entries| - n
  {
    if n < |entries| {
      EntriesBehind(sys, i + |entries[n]|, first, entries, n + 1);
    }
  }

  lemma {:induction false} EveryEntry(sys: seq<byte>, i: nat) returns (entries: seq<seq<byte>>)
    ensures EntriesAt(sys, i, entries, 0)
    ensures forall e :: e in entries ==> 4 <= |e| < 0x100 && e[2] == |e|
    decreases |sys| - i
  {
    if i + 4 > |sys| || sys[i + 2] < 4 || i + sys[i + 2] > |sys| {
      return [];
    }
    var len: nat := sys[i + 2];
    var rest := EveryEntry(sys, i + len);
    entries := OneMoreEntry(sys, i, sys[i..i + len], rest);
  }

  lemma OneMoreEntry(sys: seq<byte>, i: nat, e: seq<byte>, rest: seq<seq<byte>>) returns (entries: seq<seq<byte>>)
    requires 4 <= |e| < 0x100 && e[2] == |e| && i + |e| <= |sys| && sys[i..i + |e|] == e && EntriesAt(sys, i + |e|, rest, 0)
    ensures entries == [e] + rest && EntriesAt(sys, i, entries, 0)
  {
    EntriesBehind(sys, i + |e|, e, rest, 0);
    entries := [e] + rest;
  }

  lemma {:induction false} FieldsOf(entries: seq<seq<byte>>) returns (fields: seq<Field>)
    requires forall e :: e in entries ==> 4 <= |e| < 0x100 && e[2] == |e|
    ensures Spell(fields, entries)
  {
    if entries == [] {
      return [];
    }
    var f := FieldOf(entries[0]);
    var rest := FieldsOf(entries[1..]);
    SpellOneMore(f, rest, entries);
    fields := [f] + rest;
  }

  lemma EveryArea(sys: seq<byte>) returns (fields: seq<Field>)
    ensures Consists(sys, fields)
  {
    var entries := EveryEntry(sys, 0);
    fields := FieldsOf(entries);
    assert Entries(fields) == entries;
  }

  /** The name of a record: the Rock Ridge name on a plain volume, if there is
      one, whatever the identifier; otherwise what the identifier spells. */
  lemma NamedRead(joliet: bool, id: seq<byte>, spelling: Spelling, sys: seq<byte>, fields: seq<Field>)
    requires Consists(sys, fields)
    requires (!joliet && NameKept(fields, 0) != "") || (Nameable(spelling.name) && id == Spelled(joliet, spelling))
    ensures NameOf(joliet, id, sys) == if !joliet && NameKept(fields, 0) != "" then NameKept(fields, 0) else spelling.name
  {
    AreaReads(sys, fields);
    if joliet {
      JolietReads(spelling);
    } else if NameKept(fields, 0) == "" {
      PlainReads(spelling);
    }
  }
}
