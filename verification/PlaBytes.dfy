/**
 The bytes of an iriver PLA file, one by one, and when reading one fails
 (plparse/idol-pl-parser-pla.c:40-265).
 */
module PlaBytes {
  import opened CText
  import opened Utf16
  import opened Pla
  import Utf8

  // ----- the header

  lemma HeaderParts(total: nat, title: seq<Byte>)
    requires total < 0x8000_0000
    ensures var name := Clip(title, TITLE_SIZE);
            Header(total, title) == BE32(total) + FORMAT_ID + Zeros(14) + name + Zeros(480 - |name|)
  {
    hide BE32, Clip, Zeros;
  }

  /** The count with its highest byte first, the name of the format behind it, and up to 64 bytes of title at 32. */
  lemma HeaderBytes(total: nat, title: seq<Byte>)
    requires total < 0x8000_0000
    ensures var h := Header(total, title);
            && h[0] as nat == total / 0x100_0000 && h[1] as nat == total / 0x1_0000 % 256
            && h[2] as nat == total / 0x100 % 256 && h[3] as nat == total % 256
            && (forall k :: 0 <= k < 14 ==> h[4 + k] as int as char == "iriver UMS PLA"[k])
            && (forall k :: 18 <= k < 32 ==> h[k] == 0)
            && forall k :: 32 <= k < 512 ==> h[k] == if k - 32 < |title| && k < 96 then title[k - 32] else 0
  {
    HeaderParts(total, title);
    assert total / 256 / 256 == total / 0x1_0000 && total / 256 / 256 / 256 == total / 0x100_0000;
    var h := Header(total, title);
    forall k | 0 <= k < 14
      ensures h[4 + k] as int as char == "iriver UMS PLA"[k]
    {
      assert h[4 + k] == FORMAT_ID[k];
    }
  }

  // ----- records

  predicate IsAscii(path: seq<Byte>) {
    forall k :: 0 <= k < |path| ==> path[k] < 128
  }

  function CodePoints(path: seq<Byte>): (cs: seq<nat>)
    ensures |cs| == |path|
  {
    seq(|path|, k requires 0 <= k < |path| => path[k] as nat)
  }

  lemma {:induction false} AsciiIsOneToOne(path: seq<Byte>)
    requires IsAscii(path)
    ensures AreScalars(CodePoints(path)) && EncodeUtf8(CodePoints(path)) == path
    ensures Utf16.Encode(CodePoints(path)) == CodePoints(path)
    decreases |path|
  {
    if path != [] {
      AsciiIsOneToOne(path[1..]);
      var cs := CodePoints(path);
      assert cs[1..] == CodePoints(path[1..]);
      assert path == [path[0]] + path[1..];
      assert cs == [cs[0]] + cs[1..];
      assert Utf8.Encode(cs[0]) == [path[0]];
    }
  }

  lemma {:induction false} BytesOfUnits(us: seq<nat>, k: nat)
    requires AreUnits(us) && k < |us|
    ensures ToBytes(us)[2 * k] as nat == us[k] / 256 && ToBytes(us)[2 * k + 1] as nat == us[k] % 256
    decreases k
  {
    if k > 0 {
      BytesOfUnits(us[1..], k - 1);
      assert ToBytes(us)[2 * k] == ToBytes(us[1..])[2 * (k - 1)];
    }
  }

  /** A record of a plain name: two bytes for each character, the low one last, and backslashes for slashes. */
  lemma RecordBytes(path: seq<Byte>, k: nat)
    requires IsAscii(path) && 0 !in path && |path| <= 255 && k < 255
    ensures PathRecord(path).Some?
    ensures var r := PathRecord(path).value;
            && r[2 + 2 * k] == 0
            && r[3 + 2 * k] == if k >= |path| then 0 else if path[k] == 47 then 92 else path[k]
  {
    hide DecodeUtf8, Utf16.Encode, EncodeUtf8, ToBytes, NameOffset;
    var device := Replace(path, SLASH, BACKSLASH);
    var us := CodePoints(device);
    AsciiIsOneToOne(device);
    DecodeOfEncodeUtf8(us);
    var bytes := ToBytes(us);
    assert Clip(bytes, 510) == bytes;
    assert PathRecord(path).value == BE16(NameOffset(path)) + bytes + Zeros(510 - |bytes|);
    if k < |path| {
      BytesOfUnits(us, k);
    }
  }

  /** The two bytes in front of the name: where the part behind its last slash starts, counted from 1. */
  lemma OffsetBytes(path: seq<Byte>, k: nat)
    requires PathRecord(path).Some? && |path| < 0xFFFF
    requires k <= |path| && SLASH !in path[k..] && (k == 0 || path[k - 1] == 47)
    ensures var r := PathRecord(path).value; r[0] as nat * 256 + r[1] as nat == k + 1
  {
    hide ToDevice, PathRecord, LastIndexOf;
    if k == 0 {
      assert path[0..] == path;
      assert LastIndexOf(path, SLASH) == None;
    } else {
      LastSlash(path[..k - 1], path[k..]);
      assert path == path[..k - 1] + [SLASH] + path[k..];
    }
    RecordOffsetOf(path);
  }

  /** Section 2.1 of RFC 2781, with the example of its section 5: the high half comes first. */
  lemma SurrogatePairs(c: nat)
    requires 0x10000 <= c < 0x110000
    ensures var us := Units(c);
            && |us| == 2 && 0xD800 <= us[0] <= 0xDBFF && 0xDC00 <= us[1] <= 0xDFFF
            && c == 0x10000 + (us[0] - 0xD800) * 0x400 + (us[1] - 0xDC00)
    ensures Units(0x12345) == [0xD808, 0xDF45]
  {
    UnitsArePairs(c);
  }

  // ----- reading

  /** As many records as the count says, or as the file has. */
  function Available(contents: seq<Byte>, max: nat): nat {
    var n := |contents| / 512;
    if n == 0 then 0 else if n - 1 < max then n - 1 else max
  }

  lemma AvailableIff(contents: seq<Byte>, k: nat, max: nat)
    ensures k < Available(contents, max) <==> 512 * (k + 2) <= |contents| && k < max
  {
  }

  lemma ReadRecordsUnfolds(contents: seq<Byte>, k: nat, max: nat, toUri: seq<Byte> -> Option<string>)
    ensures ReadRecords(contents, k, max, toUri) ==
            if !(512 * (k + 2) <= |contents| && k < max) then ([], Unhandled)
            else if RecordUri(RecordAt(contents, k), toUri).None? then ([], Error)
            else
              var (events, result) := ReadRecords(contents, k + 1, max, toUri);
              ([EntryParsed(RecordUri(RecordAt(contents, k), toUri).value)] + events, result)
  {
    hide RecordUri, RecordAt;
  }

  lemma {:induction false} RecordsAreRead(contents: seq<Byte>, k: nat, max: nat, toUri: seq<Byte> -> Option<string>)
    requires k <= Available(contents, max)
    ensures var (events, result) := ReadRecords(contents, k, max, toUri);
            var end := k + |events|;
            && end <= Available(contents, max)
            && (forall j :: k <= j < end ==>
                  RecordUri(RecordAt(contents, j), toUri).Some?
                  && events[j - k] == EntryParsed(RecordUri(RecordAt(contents, j), toUri).value))
            && (result == Unhandled <==> end == Available(contents, max))
            && (result == Error ==> RecordUri(RecordAt(contents, end), toUri) == None)
    decreases |contents| - 512 * k
  {
    hide RecordUri, RecordAt, Available, ReadRecords;
    AvailableIff(contents, k, max);
    ReadRecordsUnfolds(contents, k, max, toUri);
    if k < Available(contents, max) && RecordUri(RecordAt(contents, k), toUri).Some? {
      RecordsAreRead(contents, k + 1, max, toUri);
    }
  }

  /** The format's name and a NUL stand in their place. */
  predicate IsNamed(contents: seq<Byte>) {
    && |contents| >= 19 && contents[18] == 0
    && forall k :: 0 <= k < 14 ==> contents[4 + k] as int as char == "iriver UMS PLA"[k]
  }

  lemma NamedIff(contents: seq<Byte>)
    requires |contents| >= 512
    ensures CBytes(contents[FORMAT_ID_OFFSET..]) == FORMAT_ID <==> IsNamed(contents)
  {
    hide CBytes;
    var bs := contents[FORMAT_ID_OFFSET..];
    assert forall k :: 0 <= k < 14 ==> FORMAT_ID[k] as int as char == "iriver UMS PLA"[k];
    if IsNamed(contents) {
      forall k | 0 <= k < 14
        ensures bs[k] == FORMAT_ID[k]
      {
        assert contents[4 + k] as int as char == FORMAT_ID[k] as int as char;
      }
      assert bs == FORMAT_ID + bs[14..];
      CBytesOf(FORMAT_ID, bs[14..]);
    }
    assert CBytes(bs) == FORMAT_ID ==> FORMAT_ID == bs[..14] && bs[14] == 0;
    assert forall k :: 0 <= k < 14 ==> contents[4 + k] == bs[..14][k];
  }

  predicate IsReadable(contents: seq<Byte>, toUri: seq<Byte> -> Option<string>, k: nat)
    requires 512 * (k + 2) <= |contents|
  {
    RecordUri(RecordAt(contents, k), toUri).Some?
  }

  /**
   Reading a file is no error exactly if it has a header of the right name and
   every record that counts has a URI.
   */
  lemma ReadFailsIff(contents: seq<Byte>, toUri: seq<Byte> -> Option<string>)
    ensures Read(contents, toUri).1 == Unhandled <==>
            && |contents| >= 512 && IsNamed(contents)
            && forall k :: 0 <= k < Available(contents, FromBE32(contents[..4])) ==> IsReadable(contents, toUri, k)
  {
    hide RecordUri, RecordAt, CBytes, ReadRecords, FromBE32, IsNamed;
    if |contents| >= 512 {
      NamedIff(contents);
      var max := FromBE32(contents[..4]);
      RecordsAreRead(contents, 0, max, toUri);
      var (events, result) := ReadRecords(contents, 0, max, toUri);
      forall k | 0 <= k < |events|
        ensures IsReadable(contents, toUri, k)
      {
        assert RecordUri(RecordAt(contents, k), toUri).Some?;
      }
      assert result == Error ==> !IsReadable(contents, toUri, |events|);
    }
  }

  /** The count in a header. */
  lemma CountOf(bs: seq<Byte>)
    requires |bs| == 4
    ensures FromBE32(bs) == bs[0] as nat * 0x100_0000 + bs[1] as nat * 0x1_0000 + bs[2] as nat * 0x100 + bs[3] as nat
  {
  }
}
