/**
 The UTF-8 encoder used for numeric character references
 (plparse/xmllexer.c:667-682, the same arithmetic at 71-84), and an
 independent decoder for the multi-byte forms of section 2 of RFC 2279.
 */
module Utf8 {
  newtype Byte = b: int | 0 <= b < 256

  /** The number of continuation bytes the C code picks for a code point. */
  function ContinuationCount(i: nat): (k: nat)
    ensures k <= 5
  {
    if i >= 0x04000000 then 5
    else if i >= 0x00200000 then 4
    else if i >= 0x00010000 then 3
    else if i >= 0x00000800 then 2
    else 1
  }

  /** `i >> 6 * k` */
  function Shift(i: nat, k: nat): nat {
    if k == 0 then i else Shift(i / 64, k - 1)
  }

  /** `(char) (0x1F80 >> k)` and how many of its low bits are clear. */
  function LeadMark(k: nat): (Byte, nat)
    requires 1 <= k <= 5
  {
    match k
    case 1 => (0xC0, 64)
    case 2 => (0xE0, 32)
    case 3 => (0xF0, 16)
    case 4 => (0xF8, 8)
    case 5 => (0xFC, 4)
  }

  /**
   The lead byte.  The set bits of the mark are exactly those above its clear
   low ones, so a bitwise or with any value adds that value's low bits.
   */
  function LeadByte(i: nat, k: nat): Byte
    requires 1 <= k <= 5
  {
    var (mark, room) := LeadMark(k);
    (mark as int + Shift(i, k) % room) as Byte
  }

  /** `128 | ((i >> 6 * k) & 0x3F)` */
  function ContinuationByte(i: nat, k: nat): Byte {
    (128 + Shift(i, k) % 64) as Byte
  }

  /** The `k` continuation bytes of the low `6 * k` bits, highest first. */
  function Continuation(i: nat, k: nat): (bs: seq<Byte>)
    ensures |bs| == k
    ensures forall j :: 0 <= j < k ==> bs[j] == ContinuationByte(i, k - 1 - j)
  {
    if k == 0 then [] else Continuation(i / 64, k - 1) + [ContinuationByte(i, 0)]
  }

  /** What the decoder stores for the value of a numeric reference. */
  function Encode(i: nat): (bs: seq<Byte>)
    ensures 1 <= |bs| <= 6
  {
    if i < 128 then [i as Byte]
    else
      var k := ContinuationCount(i);
      [LeadByte(i, k)] + Continuation(i, k)
  }

  // ----- RFC 2279, section 2, read from the bytes

  /** The largest code point a sequence of `n` bytes can carry, plus one. */
  function Capacity(n: nat): nat
    requires 1 <= n <= 6
  {
    match n
    case 1 => 0x80
    case 2 => 0x800
    case 3 => 0x10000
    case 4 => 0x200000
    case 5 => 0x4000000
    case 6 => 0x80000000
  }

  /** The sequence length that a lead byte announces; 0 for a byte that leads nothing. */
  function Announced(lead: Byte): (n: nat)
    ensures n <= 6
  {
    if lead < 0x80 then 1
    else if lead < 0xC0 then 0
    else if lead < 0xE0 then 2
    else if lead < 0xF0 then 3
    else if lead < 0xF8 then 4
    else if lead < 0xFC then 5
    else if lead < 0xFE then 6
    else 0
  }

  predicate IsContinuation(b: Byte) {
    0x80 <= b < 0xC0
  }

  predicate WellFormed(bs: seq<Byte>) {
    && bs != []
    && |bs| == Announced(bs[0])
    && forall j :: 1 <= j < |bs| ==> IsContinuation(bs[j])
  }

  function Accumulate(v: nat, bs: seq<Byte>): nat
    requires forall j :: 0 <= j < |bs| ==> IsContinuation(bs[j])
  {
    if bs == [] then v
    else
      var last := bs[|bs| - 1];
      assert IsContinuation(last);
      Accumulate(v, bs[..|bs| - 1]) * 64 + (last as int - 0x80)
  }

  function Decode(bs: seq<Byte>): nat
    requires WellFormed(bs)
  {
    var n := Announced(bs[0]);
    var lead := if n == 1 then bs[0] as int else bs[0] as int - LeadMark(n - 1).0 as int;
    Accumulate(lead, bs[1..])
  }

  lemma {:induction false} AccumulateUndoesShift(i: nat, k: nat)
    ensures Accumulate(Shift(i, k), Continuation(i, k)) == i
  {
    if k > 0 {
      AccumulateUndoesShift(i / 64, k - 1);
      var bs := Continuation(i, k);
      assert bs[..k - 1] == Continuation(i / 64, k - 1);
      assert bs[k - 1] as int == 128 + i % 64;
      assert Accumulate(Shift(i, k), bs[..k - 1]) == i / 64;
    }
  }

  function Scale(bound: nat, k: nat): nat {
    if k == 0 then bound else Scale(bound, k - 1) * 64
  }

  lemma {:induction false} ShiftBound(i: nat, k: nat, bound: nat)
    requires i < Scale(bound, k)
    ensures Shift(i, k) < bound
  {
    if k > 0 {
      assert i / 64 < Scale(bound, k - 1);
      ShiftBound(i / 64, k - 1, bound);
    }
  }

  /** Half of a lead byte's clear bits is exactly what each length needs. */
  lemma ScaleIsCapacity(k: nat)
    requires 1 <= k <= 5
    ensures Scale(LeadMark(k).1 / 2, k) == Capacity(k + 1)
  {
    var b := LeadMark(k).1 / 2;
    assert Scale(b, 0) == b && Scale(b, 1) == b * 64;
    assert Scale(b, 2) == b * 4096;
    assert Scale(b, 3) == b * 262144;
    assert Scale(b, 4) == b * 16777216;
    assert Scale(b, 5) == b * 1073741824;
  }

  /** The lead byte announces its own sequence and gives back the bits put into it. */
  lemma LeadByteIsExact(i: nat)
    requires 128 <= i < 0x80000000
    ensures var k := ContinuationCount(i);
            Announced(LeadByte(i, k)) == k + 1 && LeadByte(i, k) as int == LeadMark(k).0 as int + Shift(i, k)
  {
    var k := ContinuationCount(i);
    ScaleIsCapacity(k);
    ShiftBound(i, k, LeadMark(k).1 / 2);
  }

  /** Every code point is encoded in its shortest form and decodes back to itself. */
  lemma EncodeIsShortestAndDecodes(i: nat)
    requires i < 0x80000000
    ensures WellFormed(Encode(i)) && Decode(Encode(i)) == i
    ensures i < Capacity(|Encode(i)|)
    ensures |Encode(i)| > 1 ==> i >= Capacity(|Encode(i)| - 1)
  {
    var bs := Encode(i);
    if i >= 128 {
      var k := ContinuationCount(i);
      LeadByteIsExact(i);
      assert bs[1..] == Continuation(i, k);
      forall j | 1 <= j < |bs|
        ensures IsContinuation(bs[j])
      {
        assert bs[j] == Continuation(i, k)[j - 1];
      }
      AccumulateUndoesShift(i, k);
    }
  }

  lemma ShiftsAreQuotients(i: nat)
    ensures Shift(i, 1) == i / 0x40 && Shift(i, 2) == i / 0x1000 && Shift(i, 3) == i / 0x4_0000
    ensures Shift(i, 4) == i / 0x100_0000 && Shift(i, 5) == i / 0x4000_0000
  {
    assert Shift(i, 1) == Shift(i / 64, 0);
    assert Shift(i, 2) == Shift(i / 64, 1) == i / 64 / 64;
    assert Shift(i, 3) == Shift(i / 64, 2) == i / 64 / 64 / 64;
    assert Shift(i, 4) == Shift(i / 64, 3) == i / 64 / 64 / 64 / 64;
    assert Shift(i, 5) == Shift(i / 64, 4) == i / 64 / 64 / 64 / 64 / 64;
  }

  /** Of a number that takes more than five bytes its low 32 bits are stored, the two highest of them in the first. */
  lemma LargeNumbersAreCut(i: nat)
    requires i >= 0x400_0000
    ensures var bs := Encode(i);
            && |bs| == 6 && bs[0] as int == 0xFC + i / 0x4000_0000 % 4
            && bs[1] as int == 0x80 + i / 0x100_0000 % 64 && bs[2] as int == 0x80 + i / 0x4_0000 % 64
            && bs[3] as int == 0x80 + i / 0x1000 % 64 && bs[4] as int == 0x80 + i / 0x40 % 64
            && bs[5] as int == 0x80 + i % 64
  {
    ShiftsAreQuotients(i);
  }

  /** No encoding is a proper or improper prefix of the encoding of another code point. */
  lemma EncodingsArePrefixFree(i: nat, j: nat)
    requires i < 0x80000000 && j < 0x80000000
    requires Encode(i) <= Encode(j)
    ensures i == j
  {
    hide Encode;
    EncodeIsShortestAndDecodes(i);
    EncodeIsShortestAndDecodes(j);
    assert Encode(i)[0] == Encode(j)[0];
    assert |Encode(i)| == |Encode(j)|;
    assert Encode(i) == Encode(j);
  }
}
