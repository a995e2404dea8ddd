/**
 The conversions between UTF-8 and UTF-16BE that the PLA code asks of
 `g_convert` (plparse/idol-pl-parser-pla.c:132, 217-220): UTF-16 as in sections
 2.1 and 2.2 of RFC 2781, big-endian and without a byte-order mark, and
 strict UTF-8.
 */
module Utf16 {
  import opened CText
  import Utf8

  type Byte = Utf8.Byte

  /** A code point that text may hold. */
  predicate IsScalar(c: nat) {
    c < 0x110000 && !(0xD800 <= c < 0xE000)
  }

  predicate AreScalars(cs: seq<nat>) {
    forall k :: 0 <= k < |cs| ==> IsScalar(cs[k])
  }

  predicate AreUnits(us: seq<nat>) {
    forall k :: 0 <= k < |us| ==> us[k] < 0x10000
  }

  /** Section 2.1 of RFC 2781. */
  function Units(c: nat): (us: seq<nat>)
    requires IsScalar(c)
    ensures 1 <= |us| <= 2 && AreUnits(us)
  {
    if c < 0x10000 then [c] else [0xD800 + (c - 0x10000) / 0x400, 0xDC00 + (c - 0x10000) % 0x400]
  }

  function Encode(cs: seq<nat>): (us: seq<nat>)
    requires AreScalars(cs)
    ensures AreUnits(us) && |us| >= |cs|
  {
    if cs == [] then [] else Units(cs[0]) + Encode(cs[1..])
  }

  predicate IsHigh(u: nat) { 0xD800 <= u < 0xDC00 }

  predicate IsLow(u: nat) { 0xDC00 <= u < 0xE000 }

  function FromPair(high: nat, low: nat): (c: nat)
    requires IsHigh(high) && IsLow(low)
    ensures IsScalar(c) && Units(c) == [high, low]
  {
    0x10000 + (high - 0xD800) * 0x400 + (low - 0xDC00)
  }

  /** Section 2.2 of RFC 2781; unpaired surrogates are errors. */
  function Decode(us: seq<nat>): (r: Option<seq<nat>>)
    requires AreUnits(us)
    ensures r.Some? ==> AreScalars(r.value) && Encode(r.value) == us
  {
    if us == [] then Some([])
    else if !IsHigh(us[0]) && !IsLow(us[0]) then
      match Decode(us[1..])
      case None => None
      case Some(rest) =>
        assert ([us[0]] + rest)[1..] == rest;
        assert us == [us[0]] + us[1..];
        Some([us[0]] + rest)
    else if |us| >= 2 && IsHigh(us[0]) && IsLow(us[1]) then
      match Decode(us[2..])
      case None => None
      case Some(rest) =>
        var c := FromPair(us[0], us[1]);
        assert ([c] + rest)[1..] == rest;
        assert us == [us[0], us[1]] + us[2..];
        Some([c] + rest)
    else None
  }

  lemma UnitsArePairs(c: nat)
    requires IsScalar(c) && c >= 0x10000
    ensures IsHigh(Units(c)[0]) && IsLow(Units(c)[1]) && FromPair(Units(c)[0], Units(c)[1]) == c
  {
  }

  function Prepend(cs: seq<nat>, rest: Option<seq<nat>>): Option<seq<nat>> {
    if rest.Some? then Some(cs + rest.value) else None
  }

  lemma EncodeOfNone()
    ensures Encode([]) == []
  {
  }

  lemma PrependNone(r: Option<seq<nat>>)
    ensures Prepend([], r) == r
  {
    assert r.Some? ==> [] + r.value == r.value;
  }

  lemma DecodeFirst(c: nat, rest: seq<nat>)
    requires IsScalar(c) && AreUnits(rest)
    ensures Decode(Units(c) + rest) == Prepend([c], Decode(rest))
  {
    var us := Units(c) + rest;
    if c < 0x10000 {
      assert us[0] == c && us[1..] == rest;
    } else {
      UnitsArePairs(c);
      assert us[0] == Units(c)[0] && us[1] == Units(c)[1] && us[2..] == rest;
    }
  }

  lemma EncodeUnfolds(cs: seq<nat>)
    requires AreScalars(cs) && cs != []
    ensures Encode(cs) == Units(cs[0]) + Encode(cs[1..])
  {
  }

  lemma PrependTwice(c: nat, tail: seq<nat>, r: Option<seq<nat>>)
    ensures Prepend([c], Prepend(tail, r)) == Prepend([c] + tail, r)
  {
    assert r.Some? ==> [c] + (tail + r.value) == [c] + tail + r.value;
  }

  /** Text in front of other units is decoded on its own. */
  lemma {:induction false} DecodeOfEncode(cs: seq<nat>, rest: seq<nat>)
    requires AreScalars(cs) && AreUnits(rest)
    ensures Decode(Encode(cs) + rest) == Prepend(cs, Decode(rest))
    decreases |cs|
  {
    hide Decode, Encode, Units, IsScalar, Prepend;
    if cs == [] {
      EncodeOfNone();
      assert [] + rest == rest;
      PrependNone(Decode(rest));
    } else {
      var c, tail := cs[0], cs[1..];
      DecodeOfEncode(tail, rest);
      DecodeFirst(c, Encode(tail) + rest);
      EncodeUnfolds(cs);
      assert Encode(cs) + rest == Units(c) + (Encode(tail) + rest);
      PrependTwice(c, tail, Decode(rest));
      assert cs == [c] + tail;
    }
  }

  lemma {:induction false} EncodeOfConcat(a: seq<nat>, b: seq<nat>)
    requires AreScalars(a) && AreScalars(b)
    ensures AreScalars(a + b) && Encode(a + b) == Encode(a) + Encode(b)
    decreases |a|
  {
    hide IsScalar, Units, Encode;
    if a == [] {
      EncodeOfNone();
      assert a + b == b;
    } else {
      EncodeOfConcat(a[1..], b);
      assert (a + b)[1..] == a[1..] + b && (a + b)[0] == a[0];
      EncodeUnfolds(a);
      EncodeUnfolds(a + b);
    }
  }

  // ----- big-endian bytes

  function ToBytes(us: seq<nat>): (bs: seq<Byte>)
    requires AreUnits(us)
    ensures |bs| == 2 * |us|
  {
    if us == [] then [] else [(us[0] / 256) as Byte, (us[0] % 256) as Byte] + ToBytes(us[1..])
  }

  function FromBytes(bs: seq<Byte>): (us: seq<nat>)
    requires |bs| % 2 == 0
    ensures AreUnits(us) && |us| == |bs| / 2
  {
    if bs == [] then [] else [bs[0] as nat * 256 + bs[1] as nat] + FromBytes(bs[2..])
  }

  lemma {:induction false} FromOfToBytes(us: seq<nat>)
    requires AreUnits(us)
    ensures FromBytes(ToBytes(us)) == us
  {
    if us != [] {
      FromOfToBytes(us[1..]);
      assert ToBytes(us)[2..] == ToBytes(us[1..]);
      assert us == [us[0]] + us[1..];
    }
  }

  lemma {:induction false} ToBytesOfConcat(a: seq<nat>, b: seq<nat>)
    requires AreUnits(a) && AreUnits(b)
    ensures AreUnits(a + b) && ToBytes(a + b) == ToBytes(a) + ToBytes(b)
    decreases |a|
  {
    if a == [] {
      assert a + b == b;
    } else {
      ToBytesOfConcat(a[1..], b);
      assert (a + b)[1..] == a[1..] + b && (a + b)[0] == a[0];
    }
  }

  // ----- UTF-8 text

  function EncodeUtf8(cs: seq<nat>): (bs: seq<Byte>)
    ensures |bs| >= |cs|
  {
    if cs == [] then [] else Utf8.Encode(cs[0]) + EncodeUtf8(cs[1..])
  }

  /** The code point that a text begins with, if it is in its shortest form. */
  function FirstOfUtf8(bs: seq<Byte>): (r: Option<nat>)
    requires bs != []
    ensures r.Some? ==> IsScalar(r.value) && Utf8.Encode(r.value) <= bs
  {
    var n := Utf8.Announced(bs[0]);
    if n == 0 || n > |bs| || !Utf8.WellFormed(bs[..n]) then None
    else
      var c := Utf8.Decode(bs[..n]);
      if IsScalar(c) && Utf8.Encode(c) == bs[..n] then Some(c) else None
  }

  lemma EncodedFirst(bs: seq<Byte>, c: nat, rest: seq<nat>)
    requires IsScalar(c) && AreScalars(rest)
    requires Utf8.Encode(c) <= bs && EncodeUtf8(rest) == bs[|Utf8.Encode(c)|..]
    ensures AreScalars([c] + rest) && EncodeUtf8([c] + rest) == bs
  {
    hide Utf8.Encode, IsScalar;
    assert ([c] + rest)[1..] == rest;
    assert bs == Utf8.Encode(c) + bs[|Utf8.Encode(c)|..];
  }

  /** Strict UTF-8: a result exactly when the bytes are the encoding of some text. */
  function DecodeUtf8(bs: seq<Byte>): (r: Option<seq<nat>>)
    ensures r.Some? ==> AreScalars(r.value) && EncodeUtf8(r.value) == bs
  {
    if bs == [] then Some([])
    else
      match FirstOfUtf8(bs)
      case None => None
      case Some(c) =>
        match DecodeUtf8(bs[|Utf8.Encode(c)|..])
        case None => None
        case Some(rest) =>
          EncodedFirst(bs, c, rest);
          Some([c] + rest)
  }

  lemma FirstOfEncoded(c: nat, rest: seq<Byte>)
    requires IsScalar(c)
    ensures FirstOfUtf8(Utf8.Encode(c) + rest) == Some(c)
  {
    hide Utf8.Encode, Utf8.Decode;
    var bs := Utf8.Encode(c) + rest;
    Utf8.EncodeIsShortestAndDecodes(c);
    assert bs[..|Utf8.Encode(c)|] == Utf8.Encode(c) && bs[0] == Utf8.Encode(c)[0];
  }

  lemma DecodeUtf8OfNone()
    ensures DecodeUtf8([]) == Some([])
  {
  }

  lemma DecodeUtf8First(c: nat, rest: seq<Byte>)
    requires IsScalar(c)
    ensures DecodeUtf8(Utf8.Encode(c) + rest) == Prepend([c], DecodeUtf8(rest))
  {
    hide FirstOfUtf8, Utf8.Encode;
    FirstOfEncoded(c, rest);
    assert (Utf8.Encode(c) + rest)[|Utf8.Encode(c)|..] == rest;
  }

  lemma {:induction false} DecodeOfEncodeUtf8(cs: seq<nat>)
    requires AreScalars(cs)
    ensures DecodeUtf8(EncodeUtf8(cs)) == Some(cs)
  {
    hide FirstOfUtf8, Utf8.Encode, DecodeUtf8;
    if cs == [] {
      DecodeUtf8OfNone();
    } else {
      DecodeOfEncodeUtf8(cs[1..]);
      DecodeUtf8First(cs[0], EncodeUtf8(cs[1..]));
      assert cs == [cs[0]] + cs[1..];
    }
  }

  lemma {:induction false} EncodeUtf8OfConcat(a: seq<nat>, b: seq<nat>)
    ensures EncodeUtf8(a + b) == EncodeUtf8(a) + EncodeUtf8(b)
    decreases |a|
  {
    hide Utf8.Encode;
    if a == [] {
      assert a + b == b;
    } else {
      EncodeUtf8OfConcat(a[1..], b);
      assert (a + b)[1..] == a[1..] + b;
    }
  }

  predicate IsAscii(cs: seq<nat>) {
    forall k :: 0 <= k < |cs| ==> cs[k] < 128
  }

  /** UTF-8 takes at least as many bytes as UTF-16 takes units, and as few only for ASCII text. */
  lemma {:induction false} BytesAndUnits(cs: seq<nat>)
    requires AreScalars(cs)
    ensures |EncodeUtf8(cs)| >= |Encode(cs)|
    ensures |EncodeUtf8(cs)| == |Encode(cs)| <==> IsAscii(cs)
  {
    if cs != [] {
      BytesAndUnits(cs[1..]);
      assert IsAscii(cs) <==> cs[0] < 128 && IsAscii(cs[1..]);
    }
  }

  lemma NoNulInside(c: nat)
    requires IsScalar(c)
    ensures 0 in Utf8.Encode(c) <==> c == 0
    ensures 0 in Units(c) <==> c == 0
  {
    if c >= 128 {
      Utf8.EncodeIsShortestAndDecodes(c);
      Utf8.LeadByteIsExact(c);
    }
  }

  /** A NUL byte and a NUL unit are the encodings of NUL and of nothing else. */
  lemma {:induction false} NulOnlyFromNul(cs: seq<nat>)
    requires AreScalars(cs)
    ensures 0 in EncodeUtf8(cs) <==> 0 in cs
    ensures 0 in Encode(cs) <==> 0 in cs
  {
    if cs != [] {
      NulOnlyFromNul(cs[1..]);
      assert cs == [cs[0]] + cs[1..];
      assert EncodeUtf8(cs) == Utf8.Encode(cs[0]) + EncodeUtf8(cs[1..]);
      assert Encode(cs) == Units(cs[0]) + Encode(cs[1..]);
      NoNulInside(cs[0]);
    }
  }

  /** A code point that takes more than one byte takes only bytes from 128 on. */
  lemma LongBytes(c: nat)
    requires IsScalar(c) && c >= 128
    ensures forall b <- Utf8.Encode(c) :: b >= 128
  {
    Utf8.EncodeIsShortestAndDecodes(c);
    Utf8.LeadByteIsExact(c);
  }
}
