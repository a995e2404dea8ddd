/**
 The iriver PLA writer and reader (plparse/idol-pl-parser-pla.c): a file of
 512-byte records, a header and one record for each entry that has a URI.
 URIs and file names are turned into each other by the caller's functions;
 a file name is a byte string without NUL.
 */
module Pla {
  import opened CText
  import opened Playlist
  import opened Utf16
  import Utf8

  const RECORD_SIZE := 512
  const PATH_OFFSET := 2
  const FORMAT_ID_OFFSET := 4
  const TITLE_OFFSET := 32
  const TITLE_SIZE := 64

  const SLASH: Byte := 47
  const BACKSLASH: Byte := 92

  /** "iriver UMS PLA" */
  const FORMAT_ID: seq<Byte> := [105, 114, 105, 118, 101, 114, 32, 85, 77, 83, 32, 80, 76, 65]

  function Zeros(n: nat): (bs: seq<Byte>)
    ensures |bs| == n
    ensures forall k :: 0 <= k < n ==> bs[k] == 0
  {
    seq(n, _ => 0)
  }

  function Pad(bs: seq<Byte>, n: nat): (r: seq<Byte>)
    requires |bs| <= n
    ensures |r| == n && bs <= r
  {
    bs + Zeros(n - |bs|)
  }

  /** The C string at the start of some bytes. */
  function CBytes(bs: seq<Byte>): (r: seq<Byte>)
    ensures 0 !in r
    ensures r <= bs
    ensures |r| < |bs| ==> bs[|r|] == 0
  {
    if bs == [] || bs[0] == 0 then [] else [bs[0]] + CBytes(bs[1..])
  }

  lemma {:induction false} CBytesOf(s: seq<Byte>, rest: seq<Byte>)
    requires 0 !in s && (rest == [] || rest[0] == 0)
    ensures CBytes(s + rest) == s
  {
    if s == [] {
      assert s + rest == rest;
    } else {
      CBytesOf(s[1..], rest);
      assert (s + rest)[1..] == s[1..] + rest;
    }
  }

  /** `g_strdelimit` with one delimiter. */
  function Replace(bs: seq<Byte>, from: Byte, to: Byte): (r: seq<Byte>)
    ensures |r| == |bs|
  {
    seq(|bs|, k requires 0 <= k < |bs| => if bs[k] == from then to else bs[k])
  }

  function LastIndexOf(bs: seq<Byte>, b: Byte): (r: Option<nat>)
    ensures r.Some? ==> r.value < |bs| && bs[r.value] == b && b !in bs[r.value + 1..]
    ensures r.None? ==> b !in bs
  {
    if bs == [] then None
    else if bs[|bs| - 1] == b then Some(|bs| - 1)
    else
      assert bs == bs[..|bs| - 1] + [bs[|bs| - 1]];
      var r := LastIndexOf(bs[..|bs| - 1], b);
      if r.Some? then
        assert bs[r.value + 1..] == bs[..|bs| - 1][r.value + 1..] + [bs[|bs| - 1]];
        r
      else None
  }

  // ----- one record

  /** The file name as the device wants it, when it is UTF-8. */
  function ToDevice(path: seq<Byte>): Option<seq<Byte>> {
    match DecodeUtf8(Replace(path, SLASH, BACKSLASH))
    case None => None
    case Some(cs) => Some(ToBytes(Utf16.Encode(cs)))
  }

  /** The two bytes in front of the name. */
  function NameOffset(path: seq<Byte>): nat {
    match LastIndexOf(path, SLASH)
    case None => 1
    case Some(k) => k + 2
  }

  function Clip(bs: seq<Byte>, n: nat): (r: seq<Byte>)
    ensures r <= bs && |r| == if |bs| > n then n else |bs|
  {
    if |bs| > n then bs[..n] else bs
  }

  function BE16(n: nat): seq<Byte> {
    [(n / 256 % 256) as Byte, (n % 256) as Byte]
  }

  function PathRecord(path: seq<Byte>): (r: Option<seq<Byte>>)
    ensures r.Some? ==> |r.value| == RECORD_SIZE
  {
    match ToDevice(path)
    case None => None
    case Some(converted) => Some(Pad(BE16(NameOffset(path)) + Clip(converted, RECORD_SIZE - PATH_OFFSET), RECORD_SIZE))
  }

  /** The file name in a record. */
  function RecordPath(record: seq<Byte>): Option<seq<Byte>>
    requires |record| == RECORD_SIZE
  {
    match Utf16.Decode(FromBytes(record[PATH_OFFSET..]))
    case None => None
    case Some(cs) => Some(Replace(CBytes(EncodeUtf8(cs)), BACKSLASH, SLASH))
  }

  lemma {:induction false} ZeroBytes(n: nat)
    ensures ToBytes(seq(n, _ => 0)) == Zeros(2 * n)
    decreases n
  {
    var zeros: seq<nat> := seq(n, _ => 0);
    if n > 0 {
      ZeroBytes(n - 1);
      assert zeros[1..] == seq(n - 1, _ => 0);
    }
  }

  /** The UTF-16 units of the converted name, and what the record holds from the name on. */
  lemma RecordUnits(path: seq<Byte>, cs: seq<nat>)
    requires DecodeUtf8(Replace(path, SLASH, BACKSLASH)) == Some(cs)
    ensures PathRecord(path).Some?
    ensures var (us, got) := (Utf16.Encode(cs), FromBytes(PathRecord(path).value[PATH_OFFSET..]));
            && (|us| <= 255 ==> got == us + seq(255 - |us|, _ => 0))
            && (|us| > 255 ==> got == us[..255])
  {
    hide Utf16.Encode, DecodeUtf8, Replace, NameOffset;
    var us := Utf16.Encode(cs);
    var record := PathRecord(path).value;
    assert record[PATH_OFFSET..] == Pad(Clip(ToBytes(us), 510), 510);
    if |us| <= 255 {
      var zeros := seq(255 - |us|, _ => 0);
      ZeroBytes(255 - |us|);
      ToBytesOfConcat(us, zeros);
      FromOfToBytes(us + zeros);
    } else {
      var front, back := us[..255], us[255..];
      assert us == front + back;
      ToBytesOfConcat(front, back);
      assert Clip(ToBytes(us), 510) == ToBytes(front);
      assert ToBytes(front) + Zeros(0) == ToBytes(front);
      FromOfToBytes(front);
    }
  }

  lemma {:induction false} ZeroText(n: nat)
    ensures Utf16.Encode(seq(n, _ => 0)) == seq(n, _ => 0) && EncodeUtf8(seq(n, _ => 0)) == Zeros(n)
    decreases n
  {
    var zeros: seq<nat> := seq(n, _ => 0);
    if n > 0 {
      ZeroText(n - 1);
      assert zeros[1..] == seq(n - 1, _ => 0);
      assert Utf8.Encode(0) == [0];
    }
  }

  lemma DecodeNothing()
    ensures Utf16.Decode([]) == Some([])
  {
  }

  lemma ShortNameIsRead(path: seq<Byte>, cs: seq<nat>)
    requires DecodeUtf8(Replace(path, SLASH, BACKSLASH)) == Some(cs) && 0 !in path
    requires |Utf16.Encode(cs)| <= 255
    ensures PathRecord(path).Some?
    ensures RecordPath(PathRecord(path).value) == Some(Replace(Replace(path, SLASH, BACKSLASH), BACKSLASH, SLASH))
  {
    hide Utf16.Encode, Utf16.Decode, DecodeUtf8, EncodeUtf8, PathRecord, CBytes;
    var us := Utf16.Encode(cs);
    var n := 255 - |us|;
    var zeros: seq<nat> := seq(n, _ => 0);
    RecordUnits(path, cs);
    ZeroText(n);
    DecodeOfEncode(cs, zeros);
    DecodeOfEncode(zeros, []);
    DecodeNothing();
    assert zeros + [] == zeros;
    EncodeUtf8OfConcat(cs, zeros);
    assert 0 !in Replace(path, SLASH, BACKSLASH);
    CBytesOf(EncodeUtf8(cs), Zeros(n));
  }

  /** Reading a name that was cut off gives fewer bytes. */
  lemma LongNameIsCut(path: seq<Byte>, cs: seq<nat>)
    requires DecodeUtf8(Replace(path, SLASH, BACKSLASH)) == Some(cs) && 0 !in path
    requires |Utf16.Encode(cs)| > 255
    ensures PathRecord(path).Some?
    ensures RecordPath(PathRecord(path).value).Some? ==> |RecordPath(PathRecord(path).value).value| < |path|
  {
    hide Utf16.Encode, Utf16.Decode, DecodeUtf8, EncodeUtf8, PathRecord, CBytes;
    var us := Utf16.Encode(cs);
    RecordUnits(path, cs);
    var front, back := us[..255], us[255..];
    assert us == front + back;
    if Utf16.Decode(front).Some? {
      var got := Utf16.Decode(front).value;
      DecodeOfEncode(got, back);
      DecodeOfEncode(cs, []);
      DecodeNothing();
      assert us + [] == us && cs + [] == cs;
      var rest := Utf16.Decode(back).value;
      assert cs == got + rest;
      EncodeOfConcat(got, rest);
      EncodeUtf8OfConcat(got, rest);
      assert cs[|got|..] == rest;
      assert rest != [];
      assert |EncodeUtf8(rest)| > 0;
    }
  }

  /** The number of UTF-16 units of a name that is UTF-8. */
  function UnitCount(path: seq<Byte>): nat
    requires ToDevice(path).Some?
  {
    |ToDevice(path).value| / 2
  }

  lemma SlashesComeBack(path: seq<Byte>)
    ensures Replace(Replace(path, SLASH, BACKSLASH), BACKSLASH, SLASH) == path <==> BACKSLASH !in path
  {
    var again := Replace(Replace(path, SLASH, BACKSLASH), BACKSLASH, SLASH);
    if BACKSLASH in path {
      var k :| 0 <= k < |path| && path[k] == BACKSLASH;
      assert again[k] == SLASH;
    } else {
      assert forall k :: 0 <= k < |path| ==> again[k] == path[k];
    }
  }

  /**
   A record gives its file name back if and only if the name has at most 255
   UTF-16 units and no backslash.
   */
  lemma RecordIsReadBackIff(path: seq<Byte>)
    requires ToDevice(path).Some? && 0 !in path
    ensures PathRecord(path).Some?
    ensures RecordPath(PathRecord(path).value) == Some(path) <==> UnitCount(path) <= 255 && BACKSLASH !in path
  {
    hide Utf16.Encode, DecodeUtf8, PathRecord, RecordPath;
    var device := Replace(path, SLASH, BACKSLASH);
    var cs := DecodeUtf8(device).value;
    if |Utf16.Encode(cs)| <= 255 {
      ShortNameIsRead(path, cs);
      SlashesComeBack(path);
    } else {
      LongNameIsCut(path, cs);
    }
  }

  lemma {:induction false} LastSlash(before: seq<Byte>, after: seq<Byte>)
    requires SLASH !in after
    ensures LastIndexOf(before + [SLASH] + after, SLASH) == Some(|before|)
    decreases |after|
  {
    var path := before + [SLASH] + after;
    if after != [] {
      LastSlash(before, after[..|after| - 1]);
      assert path[..|path| - 1] == before + [SLASH] + after[..|after| - 1];
    }
  }

  /** The two bytes in front of the name in a record. */
  function RecordOffset(record: seq<Byte>): nat
    requires |record| == RECORD_SIZE
  {
    record[0] as nat * 256 + record[1] as nat
  }

  lemma RecordOffsetOf(path: seq<Byte>)
    requires PathRecord(path).Some? && NameOffset(path) < 0x10000
    ensures RecordOffset(PathRecord(path).value) == NameOffset(path)
  {
    hide ToDevice, NameOffset;
  }

  function SlashTo(c: nat): nat {
    if c == SLASH as nat then BACKSLASH as nat else c
  }

  function SlashesTo(cs: seq<nat>): (r: seq<nat>)
    ensures |r| == |cs|
  {
    seq(|cs|, k requires 0 <= k < |cs| => SlashTo(cs[k]))
  }

  lemma ReplaceOfConcat(a: seq<Byte>, b: seq<Byte>, from: Byte, to: Byte)
    ensures Replace(a + b, from, to) == Replace(a, from, to) + Replace(b, from, to)
  {
  }

  /** No byte of a longer encoding looks like a slash. */
  lemma ReplaceInOne(c: nat)
    requires IsScalar(c)
    ensures IsScalar(SlashTo(c)) && Replace(Utf8.Encode(c), SLASH, BACKSLASH) == Utf8.Encode(SlashTo(c))
  {
    if c < 128 {
      assert Utf8.Encode(c) == [c as Byte];
    } else {
      LongBytes(c);
    }
  }

  /** Replacing slashes in bytes is replacing them in the text. */
  lemma {:induction false} ReplaceInText(cs: seq<nat>)
    requires AreScalars(cs)
    ensures AreScalars(SlashesTo(cs)) && Replace(EncodeUtf8(cs), SLASH, BACKSLASH) == EncodeUtf8(SlashesTo(cs))
  {
    hide Utf8.Encode, IsScalar, SlashTo, Replace;
    if cs == [] {
      assert Replace([], SLASH, BACKSLASH) == [];
    } else {
      ReplaceInText(cs[1..]);
      ReplaceInOne(cs[0]);
      ReplaceOfConcat(Utf8.Encode(cs[0]), EncodeUtf8(cs[1..]), SLASH, BACKSLASH);
      assert SlashesTo(cs)[1..] == SlashesTo(cs[1..]);
      assert forall k :: 1 <= k < |cs| ==> SlashesTo(cs)[k] == SlashesTo(cs[1..])[k - 1];
    }
  }

  lemma EncodedSlash()
    ensures EncodeUtf8([SLASH as nat]) == [SLASH]
  {
    assert Utf8.Encode(SLASH as nat) == [SLASH];
  }

  lemma PathOfText(dir: seq<nat>, base: seq<nat>)
    ensures EncodeUtf8(dir) + [SLASH] + EncodeUtf8(base) == EncodeUtf8(dir + [SLASH as nat] + base)
  {
    hide EncodeUtf8;
    EncodeUtf8OfConcat(dir, [SLASH as nat]);
    EncodeUtf8OfConcat(dir + [SLASH as nat], base);
    EncodedSlash();
  }

  /** A name that is text has a record. */
  lemma TextHasRecord(cs: seq<nat>)
    requires AreScalars(cs)
    ensures PathRecord(EncodeUtf8(cs)).Some?
  {
    hide EncodeUtf8, DecodeUtf8, Utf16.Encode, Replace, NameOffset;
    ReplaceInText(cs);
    DecodeOfEncodeUtf8(SlashesTo(cs));
  }

  /**
   The offset in front of a name counts bytes of the UTF-8 name.  It is the
   one-based position of the base name among the units of the record exactly
   when everything before the base name is ASCII.
   */
  lemma OffsetIsBaseNameIff(dir: seq<nat>, base: seq<nat>)
    requires AreScalars(dir) && AreScalars(base)
    requires SLASH !in EncodeUtf8(base) && |EncodeUtf8(dir)| < 0x10000 - 2
    ensures var path := EncodeUtf8(dir) + [SLASH] + EncodeUtf8(base);
            && PathRecord(path).Some?
            && (RecordOffset(PathRecord(path).value) == |Utf16.Encode(dir)| + 2 <==> IsAscii(dir))
  {
    hide Utf16.Encode, EncodeUtf8, LastIndexOf, PathRecord, RecordOffset;
    var path := EncodeUtf8(dir) + [SLASH] + EncodeUtf8(base);
    LastSlash(EncodeUtf8(dir), EncodeUtf8(base));
    PathOfText(dir, base);
    TextHasRecord(dir + [SLASH as nat] + base);
    RecordOffsetOf(path);
    BytesAndUnits(dir);
  }

  // ----- what is read from any record

  /** The code points in front of the first NUL. */
  function BeforeNul(cs: seq<nat>): (r: seq<nat>)
    ensures r <= cs && 0 !in r && (|r| < |cs| ==> cs[|r|] == 0)
  {
    if cs == [] || cs[0] == 0 then [] else [cs[0]] + BeforeNul(cs[1..])
  }

  lemma NulEndsBoth(rest: seq<nat>)
    requires AreScalars(rest) && rest != [] && rest[0] == 0
    ensures Utf16.Encode(rest) != [] && Utf16.Encode(rest)[0] == 0
    ensures EncodeUtf8(rest) != [] && EncodeUtf8(rest)[0] == 0
  {
    assert Utf8.Encode(0) == [0];
  }

  lemma NothingEncoded()
    ensures Utf16.Encode([]) == [] && EncodeUtf8([]) == []
  {
  }

  /**
   The name read from a record, whatever it holds, is its UTF-16 text up to the
   first NUL unit, in UTF-8 and with slashes: what is behind that unit is lost,
   and nothing in front of it.
   */
  lemma PathIsTextBeforeNul(record: seq<Byte>, cs: seq<nat>)
    requires |record| == RECORD_SIZE && Utf16.Decode(FromBytes(record[PATH_OFFSET..])) == Some(cs)
    ensures RecordPath(record) == Some(Replace(EncodeUtf8(BeforeNul(cs)), BACKSLASH, SLASH))
    ensures var (us, front) := (FromBytes(record[PATH_OFFSET..]), Utf16.Encode(BeforeNul(cs)));
            front <= us && 0 !in front && (|front| < |us| ==> us[|front|] == 0)
  {
    hide Utf16.Encode, Utf16.Decode, EncodeUtf8, BeforeNul, Replace, FromBytes;
    var front := BeforeNul(cs);
    var rest := cs[|front|..];
    assert cs == front + rest;
    EncodeOfConcat(front, rest);
    EncodeUtf8OfConcat(front, rest);
    NulOnlyFromNul(front);
    if rest != [] {
      NulEndsBoth(rest);
    } else {
      NothingEncoded();
    }
    CBytesOf(EncodeUtf8(front), EncodeUtf8(rest));
  }

  // ----- the writer

  function BE32(n: nat): (bs: seq<Byte>)
    requires n < 0x1_0000_0000
    ensures |bs| == 4
  {
    var (low, mid, high) := (n / 256, n / 256 / 256, n / 256 / 256 / 256);
    [high as Byte, (mid % 256) as Byte, (low % 256) as Byte, (n % 256) as Byte]
  }

  function FromBE32(bs: seq<Byte>): nat
    requires |bs| == 4
  {
    ((bs[0] as nat * 256 + bs[1] as nat) * 256 + bs[2] as nat) * 256 + bs[3] as nat
  }

  lemma BE32RoundTrip(n: nat)
    requires n < 0x1_0000_0000
    ensures FromBE32(BE32(n)) == n
  {
  }

  function Header(total: nat, title: seq<Byte>): (r: seq<Byte>)
    requires total < 0x8000_0000
    ensures |r| == RECORD_SIZE
  {
    Pad(Pad(BE32(total) + FORMAT_ID, TITLE_OFFSET) + Clip(title, TITLE_SIZE), RECORD_SIZE)
  }

  function UriRecord(uri: string, fromUri: string -> Option<seq<Byte>>): (r: Option<seq<Byte>>)
    ensures r.Some? ==> |r.value| == RECORD_SIZE
  {
    match fromUri(uri)
    case None => None
    case Some(path) => PathRecord(path)
  }

  /** The records up to the first entry that cannot be converted, and whether there is none. */
  function Records(entries: seq<Entry>, fromUri: string -> Option<seq<Byte>>): (seq<Byte>, bool) {
    if entries == [] then ([], true)
    else
      var last := entries[|entries| - 1];
      var (front, ok) := Records(entries[..|entries| - 1], fromUri);
      if !ok || last.uri.None? then (front, ok)
      else
        match UriRecord(last.uri.value, fromUri)
        case None => (front, false)
        case Some(record) => (front + record, true)
  }

  lemma RecordsStep(entries: seq<Entry>, i: nat, fromUri: string -> Option<seq<Byte>>)
    requires i < |entries|
    ensures var (front, ok) := Records(entries[..i], fromUri);
            Records(entries[..i + 1], fromUri)
            == if !ok || entries[i].uri.None? then (front, ok)
               else if UriRecord(entries[i].uri.value, fromUri).None? then (front, false)
               else (front + UriRecord(entries[i].uri.value, fromUri).value, true)
  {
    hide UriRecord;
    assert entries[..i + 1][..i] == entries[..i];
  }

  lemma {:induction false} FailureStays(entries: seq<Entry>, i: nat, fromUri: string -> Option<seq<Byte>>)
    requires i <= |entries| && !Records(entries[..i], fromUri).1
    ensures Records(entries, fromUri) == Records(entries[..i], fromUri)
    decreases |entries| - i
  {
    hide Records;
    if i == |entries| {
      assert entries[..i] == entries;
    } else {
      RecordsStep(entries, i, fromUri);
      FailureStays(entries, i + 1, fromUri);
    }
  }

  function Saved(entries: seq<Entry>, title: seq<Byte>, fromUri: string -> Option<seq<Byte>>): (seq<Byte>, bool)
    requires |entries| < 0x8000_0000
  {
    var (records, ok) := Records(entries, fromUri);
    (Header(|entries|, title) + records, ok)
  }

  /** `memcpy (buffer + at, bytes, …)` */
  method Copy(buffer: array<Byte>, at: nat, bytes: seq<Byte>)
    requires at + |bytes| <= buffer.Length
    modifies buffer
    ensures buffer[..] == old(buffer[..at]) + bytes + old(buffer[at + |bytes|..])
  {
    forall k | 0 <= k < |bytes| {
      buffer[at + k] := bytes[k];
    }
  }

  method Clear(buffer: array<Byte>)
    modifies buffer
    ensures buffer[..] == Zeros(buffer.Length)
  {
    forall k | 0 <= k < buffer.Length {
      buffer[k] := 0;
    }
  }

  /** The body of the loop: one cleared and refilled buffer. */
  method FillRecord(buffer: array<Byte>, path: seq<Byte>) returns (ok: bool)
    requires buffer.Length == RECORD_SIZE
    modifies buffer
    ensures ok == PathRecord(path).Some?
    ensures ok ==> buffer[..] == PathRecord(path).value
  {
    hide DecodeUtf8, Utf16.Encode, ToBytes, Replace;
    Clear(buffer);
    var filename := LastIndexOf(path, SLASH);
    if filename == None {
      buffer[1] := 1;
    } else {
      var nameOffset := filename.value + 2;
      buffer[0] := (nameOffset / 256 % 256) as Byte;
      buffer[1] := (nameOffset % 256) as Byte;
    }
    assert buffer[..] == BE16(NameOffset(path)) + Zeros(RECORD_SIZE - 2);
    var cs := DecodeUtf8(Replace(path, SLASH, BACKSLASH));
    if cs == None {
      return false;
    }
    var converted := ToBytes(Utf16.Encode(cs.value));
    var written := if |converted| > RECORD_SIZE - PATH_OFFSET then RECORD_SIZE - PATH_OFFSET else |converted|;
    assert converted[..written] == Clip(converted, RECORD_SIZE - PATH_OFFSET);
    Copy(buffer, PATH_OFFSET, converted[..written]);
    ok := true;
  }

  method FillHeader(buffer: array<Byte>, total: nat, title: seq<Byte>)
    requires buffer.Length == RECORD_SIZE && total < 0x8000_0000
    modifies buffer
    ensures buffer[..] == Header(total, title)
  {
    hide BE32;
    Clear(buffer);
    Copy(buffer, 0, BE32(total));
    assert buffer[..] == BE32(total) + Zeros(RECORD_SIZE - 4);
    Copy(buffer, FORMAT_ID_OFFSET, FORMAT_ID);
    ghost var front := Pad(BE32(total) + FORMAT_ID, TITLE_OFFSET);
    assert buffer[..] == front + Zeros(RECORD_SIZE - TITLE_OFFSET);
    var name := Clip(title, TITLE_SIZE);
    Copy(buffer, TITLE_OFFSET, name);
    assert buffer[..] == front + name + Zeros(RECORD_SIZE - TITLE_OFFSET - |name|);
  }

  lemma NoRecords(entries: seq<Entry>, fromUri: string -> Option<seq<Byte>>)
    ensures Records(entries[..0], fromUri) == ([], true)
  {
  }

  method SavePla(entries: seq<Entry>, title: seq<Byte>, fromUri: string -> Option<seq<Byte>>)
    returns (stream: seq<Byte>, ret: bool)
    requires |entries| < 0x8000_0000
    ensures (stream, ret) == Saved(entries, title, fromUri)
  {
    hide Records, PathRecord, Header;
    var numEntriesTotal := |entries|;
    var buffer := new Byte[RECORD_SIZE];
    FillHeader(buffer, numEntriesTotal, title);
    stream := buffer[..];
    ret := true;
    var iter := 0;
    NoRecords(entries, fromUri);
    ghost var header := stream;
    while iter < |entries|
      invariant 0 <= iter <= |entries|
      invariant ret && Records(entries[..iter], fromUri).1
      invariant stream == header + Records(entries[..iter], fromUri).0
    {
      RecordsStep(entries, iter, fromUri);
      var e := entries[iter];
      iter := iter + 1;
      if e.uri == None {
        continue;
      }
      var path := fromUri(e.uri.value);
      if path == None {
        FailureStays(entries, iter, fromUri);
        return stream, false;
      }
      var ok := FillRecord(buffer, path.value);
      if !ok {
        FailureStays(entries, iter, fromUri);
        return stream, false;
      }
      stream := stream + buffer[..];
    }
    assert entries[..iter] == entries;
  }

  // ----- the reader

  datatype Result = Error | Unhandled

  datatype Event = PlaylistStarted(title: seq<Byte>) | EntryParsed(uri: string) | PlaylistEnded(title: seq<Byte>)

  /** Record number `k` after the header. */
  function RecordAt(contents: seq<Byte>, k: nat): (r: seq<Byte>)
    requires RECORD_SIZE * (k + 2) <= |contents|
    ensures |r| == RECORD_SIZE
  {
    contents[RECORD_SIZE * (k + 1)..RECORD_SIZE * (k + 2)]
  }

  function RecordUri(record: seq<Byte>, toUri: seq<Byte> -> Option<string>): Option<string>
    requires |record| == RECORD_SIZE
  {
    match RecordPath(record)
    case None => None
    case Some(path) => toUri(path)
  }

  /** The entries from record `k` on. */
  function ReadRecords(contents: seq<Byte>, k: nat, max: nat, toUri: seq<Byte> -> Option<string>): (seq<Event>, Result)
    decreases |contents| - RECORD_SIZE * k
  {
    if RECORD_SIZE * (k + 2) <= |contents| && k < max then
      match RecordUri(RecordAt(contents, k), toUri)
      case None => ([], Error)
      case Some(uri) =>
        var (events, result) := ReadRecords(contents, k + 1, max, toUri);
        ([EntryParsed(uri)] + events, result)
    else ([], Unhandled)
  }

  /** A NUL byte follows the contents in memory. */
  function Read(contents: seq<Byte>, toUri: seq<Byte> -> Option<string>): (seq<Event>, Result) {
    if |contents| < RECORD_SIZE then ([], Error)
    else if CBytes(contents[FORMAT_ID_OFFSET..]) != FORMAT_ID then ([], Error)
    else
      var title := CBytes(contents[TITLE_OFFSET..]);
      var (events, result) := ReadRecords(contents, 0, FromBE32(contents[..4]), toUri);
      (if title == [] then events else [PlaylistStarted(title)] + events + [PlaylistEnded(title)], result)
  }

  method AddPla(contents: seq<Byte>, toUri: seq<Byte> -> Option<string>) returns (events: seq<Event>, retval: Result)
    ensures (events, retval) == Read(contents, toUri)
  {
    hide CBytes, RecordUri;
    events, retval := [], Unhandled;
    if |contents| < RECORD_SIZE {
      return [], Error;
    }
    var maxEntries := FromBE32(contents[..4]);
    if CBytes(contents[FORMAT_ID_OFFSET..]) != FORMAT_ID {
      return [], Error;
    }
    var title := CBytes(contents[TITLE_OFFSET..]);
    if title != [] {
      events := [PlaylistStarted(title)];
    }
    ghost var all := ReadRecords(contents, 0, maxEntries, toUri);
    ghost var before := events;
    var offset, entry := RECORD_SIZE, 0;
    assert events + all.0 == before + all.0;
    while offset + RECORD_SIZE <= |contents| && entry < maxEntries
      invariant offset == RECORD_SIZE * (entry + 1) && retval == Unhandled
      invariant events + ReadRecords(contents, entry, maxEntries, toUri).0 == before + all.0
      invariant ReadRecords(contents, entry, maxEntries, toUri).1 == all.1
      decreases |contents| - offset
    {
      assert contents[offset..offset + RECORD_SIZE] == RecordAt(contents, entry);
      var uri := RecordUri(contents[offset..offset + RECORD_SIZE], toUri);
      if uri == None {
        retval := Error;
        assert events + [] == events;
        break;
      }
      ghost var rest := ReadRecords(contents, entry + 1, maxEntries, toUri).0;
      assert events + ([EntryParsed(uri.value)] + rest) == events + [EntryParsed(uri.value)] + rest;
      events := events + [EntryParsed(uri.value)];
      offset := offset + RECORD_SIZE;
      entry := entry + 1;
    }
    assert retval == all.1 && events == before + all.0 by {
      assert events + [] == events;
    }
    if title != [] {
      events := events + [PlaylistEnded(title)];
    } else {
      assert [] + all.0 == all.0;
    }
  }

  // ----- writing and reading

  function WithUri(entries: seq<Entry>): (r: seq<Entry>)
    ensures |r| <= |entries|
    ensures forall e <- r :: e.uri.Some?
  {
    Kept(entries, _ => false)
  }

  /** A URI whose file name fits a record and comes back from it. */
  predicate Survives(uri: string, fromUri: string -> Option<seq<Byte>>, toUri: seq<Byte> -> Option<string>) {
    && fromUri(uri).Some?
    && var path := fromUri(uri).value;
    && 0 !in path && ToDevice(path).Some? && UnitCount(path) <= 255 && BACKSLASH !in path
    && toUri(path) == Some(uri)
  }

  lemma UriIsReadBack(uri: string, fromUri: string -> Option<seq<Byte>>, toUri: seq<Byte> -> Option<string>)
    requires Survives(uri, fromUri, toUri)
    ensures UriRecord(uri, fromUri).Some? && RecordUri(UriRecord(uri, fromUri).value, toUri) == Some(uri)
  {
    hide ToDevice, PathRecord, RecordPath;
    RecordIsReadBackIff(fromUri(uri).value);
  }

  /** The records are those of the kept entries, one after the other. */
  ghost predicate HoldRecords(bytes: seq<Byte>, kept: seq<Entry>, fromUri: string -> Option<seq<Byte>>)
    requires forall e <- kept :: e.uri.Some?
  {
    && |bytes| == RECORD_SIZE * |kept|
    && forall k :: 0 <= k < |kept| ==>
         UriRecord(kept[k].uri.value, fromUri) == Some(bytes[RECORD_SIZE * k..RECORD_SIZE * (k + 1)])
  }

  lemma OneMoreRecord(bytes: seq<Byte>, kept: seq<Entry>, e: Entry, fromUri: string -> Option<seq<Byte>>)
    requires (forall k <- kept :: k.uri.Some?) && e.uri.Some?
    requires HoldRecords(bytes, kept, fromUri) && UriRecord(e.uri.value, fromUri).Some?
    ensures HoldRecords(bytes + UriRecord(e.uri.value, fromUri).value, kept + [e], fromUri)
  {
    hide UriRecord;
    var record := UriRecord(e.uri.value, fromUri).value;
    var all := bytes + record;
    forall k | 0 <= k < |kept|
      ensures all[RECORD_SIZE * k..RECORD_SIZE * (k + 1)] == bytes[RECORD_SIZE * k..RECORD_SIZE * (k + 1)]
    {
    }
    assert all[RECORD_SIZE * |kept|..RECORD_SIZE * (|kept| + 1)] == record;
  }

  lemma NoneHeld(fromUri: string -> Option<seq<Byte>>)
    ensures HoldRecords([], [], fromUri)
  {
  }

  /** Every entry with a URI can be converted. */
  ghost predicate AreConvertible(kept: seq<Entry>, fromUri: string -> Option<seq<Byte>>)
    requires forall e <- kept :: e.uri.Some?
  {
    forall e <- kept :: UriRecord(e.uri.value, fromUri).Some?
  }

  lemma ConvertibleMore(kept: seq<Entry>, e: Entry, fromUri: string -> Option<seq<Byte>>)
    requires (forall k <- kept :: k.uri.Some?) && e.uri.Some?
    ensures AreConvertible(kept + [e], fromUri)
       <==> AreConvertible(kept, fromUri) && UriRecord(e.uri.value, fromUri).Some?
  {
    hide UriRecord;
    assert forall k <- kept :: k in kept + [e];
    assert e in kept + [e];
  }

  lemma NoneConvertible(fromUri: string -> Option<seq<Byte>>)
    ensures AreConvertible([], fromUri)
  {
  }

  /** The writer succeeds exactly when every URI can be converted, and then it has written every record. */
  lemma {:induction false} RecordsAreHeld(entries: seq<Entry>, fromUri: string -> Option<seq<Byte>>)
    ensures Records(entries, fromUri).1 <==> AreConvertible(WithUri(entries), fromUri)
    ensures Records(entries, fromUri).1 ==> HoldRecords(Records(entries, fromUri).0, WithUri(entries), fromUri)
    decreases |entries|
  {
    hide UriRecord, HoldRecords, AreConvertible;
    if entries == [] {
      NoneHeld(fromUri);
      NoneConvertible(fromUri);
    } else {
      var n := |entries| - 1;
      var front, last := entries[..n], entries[n];
      assert entries[..n + 1] == entries;
      KeptStep(entries, n, _ => false);
      RecordsStep(entries, n, fromUri);
      RecordsAreHeld(front, fromUri);
      if last.uri.Some? {
        ConvertibleMore(WithUri(front), last, fromUri);
        if Records(front, fromUri).1 && UriRecord(last.uri.value, fromUri).Some? {
          OneMoreRecord(Records(front, fromUri).0, WithUri(front), last, fromUri);
        }
      }
    }
  }

  function Parsed(kept: seq<Entry>): (r: seq<Event>)
    requires forall e <- kept :: e.uri.Some?
    ensures |r| == |kept|
  {
    seq(|kept|, k requires 0 <= k < |kept| => assert kept[k] in kept; EntryParsed(kept[k].uri.value))
  }

  lemma RecordIsHeld(contents: seq<Byte>, bytes: seq<Byte>, header: seq<Byte>, k: nat, kept: seq<Entry>,
                     fromUri: string -> Option<seq<Byte>>)
    requires forall e <- kept :: e.uri.Some?
    requires HoldRecords(bytes, kept, fromUri) && contents == header + bytes && |header| == RECORD_SIZE
    requires k < |kept|
    ensures RECORD_SIZE * (k + 2) <= |contents|
    ensures UriRecord(kept[k].uri.value, fromUri) == Some(RecordAt(contents, k))
  {
    hide UriRecord;
    assert RECORD_SIZE * (k + 1) <= RECORD_SIZE * |kept|;
    assert bytes[RECORD_SIZE * k..RECORD_SIZE * (k + 1)] == RecordAt(contents, k);
  }

  lemma SizeOfHeld(bytes: seq<Byte>, kept: seq<Entry>, fromUri: string -> Option<seq<Byte>>)
    requires forall e <- kept :: e.uri.Some?
    requires HoldRecords(bytes, kept, fromUri)
    ensures |bytes| == RECORD_SIZE * |kept|
  {
  }

  /** What is written for the URI is read as the URI. */
  predicate ComesBack(uri: string, fromUri: string -> Option<seq<Byte>>, toUri: seq<Byte> -> Option<string>) {
    UriRecord(uri, fromUri).Some? && RecordUri(UriRecord(uri, fromUri).value, toUri) == Some(uri)
  }

  lemma OneReadStep(contents: seq<Byte>, k: nat, max: nat, toUri: seq<Byte> -> Option<string>)
    requires RECORD_SIZE * (k + 2) <= |contents| && k < max && RecordUri(RecordAt(contents, k), toUri).Some?
    ensures var (events, result) := ReadRecords(contents, k + 1, max, toUri);
            ReadRecords(contents, k, max, toUri)
            == ([EntryParsed(RecordUri(RecordAt(contents, k), toUri).value)] + events, result)
  {
    hide RecordUri, RecordAt;
  }

  /** From record `k` on exactly the URIs are read, in order, if and only if each of them comes back. */
  lemma {:induction false} RecordsAreReadIff(contents: seq<Byte>, bytes: seq<Byte>, header: seq<Byte>, k: nat, max: nat,
                                             kept: seq<Entry>, fromUri: string -> Option<seq<Byte>>,
                                             toUri: seq<Byte> -> Option<string>)
    requires forall e <- kept :: e.uri.Some?
    requires HoldRecords(bytes, kept, fromUri) && contents == header + bytes && |header| == RECORD_SIZE
    requires k <= |kept| <= max
    ensures ReadRecords(contents, k, max, toUri) == (Parsed(kept)[k..], Unhandled)
       <==> forall j :: k <= j < |kept| ==> ComesBack(kept[j].uri.value, fromUri, toUri)
    decreases |kept| - k
  {
    hide UriRecord, HoldRecords, RecordUri, RecordAt;
    if k < |kept| {
      RecordIsHeld(contents, bytes, header, k, kept, fromUri);
      assert kept[k] in kept;
      RecordsAreReadIff(contents, bytes, header, k + 1, max, kept, fromUri, toUri);
      assert Parsed(kept)[k..] == [Parsed(kept)[k]] + Parsed(kept)[k + 1..];
      var uri := RecordUri(RecordAt(contents, k), toUri);
      if uri.Some? {
        OneReadStep(contents, k, max, toUri);
        var rest := ReadRecords(contents, k + 1, max, toUri).0;
        assert ([EntryParsed(uri.value)] + rest)[1..] == rest;
      }
    } else {
      SizeOfHeld(bytes, kept, fromUri);
      assert Parsed(kept)[k..] == [];
    }
  }

  lemma SplitAt(a: seq<Byte>, b: seq<Byte>)
    ensures (a + b)[..|a|] == a && (a + b)[|a|..] == b
  {
  }

  lemma HeaderLayout(total: nat, title: seq<Byte>, bytes: seq<Byte>)
    requires total < 0x8000_0000
    ensures var name := Clip(title, TITLE_SIZE);
            |name| <= TITLE_SIZE && name <= title
            && Header(total, title) + bytes
               == (BE32(total) + FORMAT_ID + Zeros(14))
                  + (name + (Zeros(RECORD_SIZE - TITLE_OFFSET - |name|) + bytes))
  {
    hide BE32;
  }

  /** What the reader finds in the header. */
  lemma HeaderIsRead(total: nat, title: seq<Byte>, bytes: seq<Byte>)
    requires total < 0x8000_0000 && 0 !in title
    ensures var contents := Header(total, title) + bytes;
            && FromBE32(contents[..4]) == total
            && CBytes(contents[FORMAT_ID_OFFSET..]) == FORMAT_ID
            && CBytes(contents[TITLE_OFFSET..]) == Clip(title, TITLE_SIZE)
  {
    hide BE32, FromBE32, CBytes, Header, Clip;
    var name := Clip(title, TITLE_SIZE);
    var contents := Header(total, title) + bytes;
    var afterTitle := Zeros(RECORD_SIZE - TITLE_OFFSET - |name|) + bytes;
    var afterId := Zeros(14) + (name + afterTitle);
    HeaderLayout(total, title, bytes);
    BE32RoundTrip(total);
    SplitAt(BE32(total), FORMAT_ID + afterId);
    CBytesOf(FORMAT_ID, afterId);
    SplitAt(BE32(total) + FORMAT_ID + Zeros(14), name + afterTitle);
    assert BE32(total) + (FORMAT_ID + afterId) == (BE32(total) + FORMAT_ID + Zeros(14)) + (name + afterTitle);
    CBytesOf(name, afterTitle);
  }

  /** The announcements of the title around the entries. */
  function Announced(title: seq<Byte>, events: seq<Event>): seq<Event> {
    if title == [] then events
    else [PlaylistStarted(Clip(title, TITLE_SIZE))] + events + [PlaylistEnded(Clip(title, TITLE_SIZE))]
  }

  lemma AnnouncedInjective(title: seq<Byte>, a: seq<Event>, b: seq<Event>)
    requires Announced(title, a) == Announced(title, b)
    ensures a == b
  {
    if title != [] {
      assert |a| == |b|;
      assert a == Announced(title, a)[1..|a| + 1];
      assert b == Announced(title, b)[1..|b| + 1];
    }
  }

  /** What is read from a written file, whatever its records hold. */
  lemma SavedIsRead(entries: seq<Entry>, title: seq<Byte>, fromUri: string -> Option<seq<Byte>>,
                    toUri: seq<Byte> -> Option<string>)
    requires |entries| < 0x8000_0000 && 0 !in title
    ensures var contents := Saved(entries, title, fromUri).0;
            var (events, result) := ReadRecords(contents, 0, |entries|, toUri);
            Read(contents, toUri) == (Announced(title, events), result)
  {
    hide Records, ReadRecords, Header, CBytes, FromBE32;
    HeaderIsRead(|entries|, title, Records(entries, fromUri).0);
  }

  /**
   The writer succeeds and its file is read as the URIs of the entries that have
   one, in order, between the title's announcements, if and only if each of
   these URIs comes back from its record.  The header's count, which includes
   entries without a URI, does no harm, and a title loses what is after 64 bytes.
   */
  lemma SavedIsReadBackIff(entries: seq<Entry>, title: seq<Byte>, fromUri: string -> Option<seq<Byte>>,
                           toUri: seq<Byte> -> Option<string>)
    requires |entries| < 0x8000_0000 && 0 !in title
    ensures var (contents, ok) := Saved(entries, title, fromUri);
            (ok && Read(contents, toUri) == (Announced(title, Parsed(WithUri(entries))), Unhandled)) <==>
            forall e <- WithUri(entries) :: ComesBack(e.uri.value, fromUri, toUri)
  {
    hide Records, ReadRecords, Header, HoldRecords, RecordUri, UriRecord, Read, Announced;
    var kept := WithUri(entries);
    var header, bytes := Header(|entries|, title), Records(entries, fromUri).0;
    var contents := header + bytes;
    RecordsAreHeld(entries, fromUri);
    SavedIsRead(entries, title, fromUri, toUri);
    if Records(entries, fromUri).1 {
      RecordsAreReadIff(contents, bytes, header, 0, |entries|, kept, fromUri, toUri);
      assert Parsed(kept)[0..] == Parsed(kept);
      var read := ReadRecords(contents, 0, |entries|, toUri).0;
      if Announced(title, read) == Announced(title, Parsed(kept)) {
        AnnouncedInjective(title, read, Parsed(kept));
      }
    }
  }

  /** The two conversions undo each other, and no two file names have the same URI. */
  ghost predicate AreInverse(fromUri: string -> Option<seq<Byte>>, toUri: seq<Byte> -> Option<string>) {
    && (forall uri :: fromUri(uri).Some? ==> 0 !in fromUri(uri).value && toUri(fromUri(uri).value) == Some(uri))
    && (forall p, q :: toUri(p).Some? && toUri(p) == toUri(q) ==> p == q)
  }

  lemma RecordNeedsText(path: seq<Byte>)
    ensures PathRecord(path).Some? <==> ToDevice(path).Some?
  {
    hide ToDevice, NameOffset;
  }

  /** Then a URI comes back exactly when its file name survives the record. */
  lemma ComesBackIff(uri: string, fromUri: string -> Option<seq<Byte>>, toUri: seq<Byte> -> Option<string>)
    requires AreInverse(fromUri, toUri)
    ensures ComesBack(uri, fromUri, toUri) <==> Survives(uri, fromUri, toUri)
  {
    hide ToDevice, PathRecord, RecordPath;
    if fromUri(uri).Some? {
      var path := fromUri(uri).value;
      RecordNeedsText(path);
      if ToDevice(path).Some? {
        RecordIsReadBackIff(path);
      }
    }
  }

  /**
   So a written file gives exactly its URIs back if and only if every file name
   is text of at most 255 UTF-16 units without a backslash.
   */
  lemma SavedComesBackIff(entries: seq<Entry>, title: seq<Byte>, fromUri: string -> Option<seq<Byte>>,
                          toUri: seq<Byte> -> Option<string>)
    requires |entries| < 0x8000_0000 && 0 !in title && AreInverse(fromUri, toUri)
    ensures var (contents, ok) := Saved(entries, title, fromUri);
            (ok && Read(contents, toUri) == (Announced(title, Parsed(WithUri(entries))), Unhandled)) <==>
            forall e <- WithUri(entries) ::
              && fromUri(e.uri.value).Some?
              && var path := fromUri(e.uri.value).value;
                 ToDevice(path).Some? && UnitCount(path) <= 255 && BACKSLASH !in path
  {
    hide Saved, Read, Announced, ComesBack, ToDevice;
    SavedIsReadBackIff(entries, title, fromUri, toUri);
    forall e | e in WithUri(entries)
      ensures ComesBack(e.uri.value, fromUri, toUri) <==> Survives(e.uri.value, fromUri, toUri)
    {
      ComesBackIff(e.uri.value, fromUri, toUri);
    }
  }

  lemma SurvivorComesBack(uri: string, fromUri: string -> Option<seq<Byte>>, toUri: seq<Byte> -> Option<string>)
    requires UriRecord(uri, fromUri).Some? && RecordUri(UriRecord(uri, fromUri).value, toUri) == Some(uri)
    ensures ComesBack(uri, fromUri, toUri)
  {
  }

  /** Without anything being known of the conversions, URIs whose file names survive are read back. */
  lemma SavedIsReadBack(entries: seq<Entry>, title: seq<Byte>, fromUri: string -> Option<seq<Byte>>,
                        toUri: seq<Byte> -> Option<string>)
    requires |entries| < 0x8000_0000 && 0 !in title
    requires forall e <- WithUri(entries) :: Survives(e.uri.value, fromUri, toUri)
    ensures Saved(entries, title, fromUri).1
    ensures Read(Saved(entries, title, fromUri).0, toUri)
         == (Announced(title, Parsed(WithUri(entries))), Unhandled)
  {
    hide Saved, Read, Announced, Survives, ComesBack;
    SavedIsReadBackIff(entries, title, fromUri, toUri);
    forall e | e in WithUri(entries)
      ensures ComesBack(e.uri.value, fromUri, toUri)
    {
      UriIsReadBack(e.uri.value, fromUri, toUri);
      SurvivorComesBack(e.uri.value, fromUri, toUri);
    }
  }
}
