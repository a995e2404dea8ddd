/**
 Decimal output (`%d` of a non-negative number) and the digit scanning that
 `strtol` does.
 */
module Decimal {
  import opened CText

  function Digit(d: nat): (c: char)
    requires d < 10
    ensures '0' <= c <= '9' && c as int - '0' as int == d
  {
    ('0' as int + d) as char
  }

  /** `%d` */
  function Itoa(n: nat): (s: string)
    ensures s != ""
    ensures forall i :: 0 <= i < |s| ==> '0' <= s[i] <= '9'
  {
    if n < 10 then [Digit(n)] else Itoa(n / 10) + [Digit(n % 10)]
  }

  function DigitValue(c: char): nat {
    if '0' <= c <= '9' then c as int - '0' as int
    else if 'a' <= c <= 'z' then c as int - 'a' as int + 10
    else if 'A' <= c <= 'Z' then c as int - 'A' as int + 10
    else 36
  }

  /** The longest run of digits of `base`: the value carried on from `acc`, and the run's length. */
  function ScanDigits(s: string, base: nat, acc: nat): (r: (nat, nat))
    requires base <= 36
    ensures r.1 <= |s|
    ensures r.1 == 0 ==> r.0 == acc
  {
    if s != "" && DigitValue(s[0]) < base then
      var (v, n) := ScanDigits(s[1..], base, acc * base + DigitValue(s[0]));
      (v, n + 1)
    else (acc, 0)
  }

  /** Printing and scanning a number are inverse. */
  lemma {:induction false} ScanOfItoa(n: nat, rest: string)
    ensures var (v, k) := ScanDigits(rest, 10, n);
            ScanDigits(Itoa(n) + rest, 10, 0) == (v, k + |Itoa(n)|)
  {
    if n < 10 {
      assert (Itoa(n) + rest)[1..] == rest;
    } else {
      var d := Digit(n % 10);
      ScanOfItoa(n / 10, [d] + rest);
      assert Itoa(n) + rest == Itoa(n / 10) + ([d] + rest);
      assert ([d] + rest)[1..] == rest;
      assert n / 10 * 10 + n % 10 == n;
    }
  }

  lemma ItoaInjective(m: nat, n: nat)
    requires Itoa(m) == Itoa(n)
    ensures m == n
  {
    ScanOfItoa(m, "");
    ScanOfItoa(n, "");
  }

  /** With at most two digits the value stays below the square of the base. */
  lemma ShortScanIsSmall(s: string, base: nat)
    requires 1 <= base <= 16
    requires ScanDigits(s, base, 0).1 <= 2
    ensures ScanDigits(s, base, 0).0 < 256
  {
    if s != "" && DigitValue(s[0]) < base {
      var a := DigitValue(s[0]);
      var t := s[1..];
      assert ScanDigits(t, base, a) == (ScanDigits(s, base, 0).0, ScanDigits(s, base, 0).1 - 1);
      if t != "" && DigitValue(t[0]) < base {
        var b := DigitValue(t[0]);
        assert a * base + b <= 15 * 16 + 15;
        assert ScanDigits(t[1..], base, a * base + b).1 == 0;
      }
    }
  }

  const LONG_MAX := 0x7FFF_FFFF_FFFF_FFFF

  function Clamp(v: int): int {
    if v > LONG_MAX then LONG_MAX else if v < -LONG_MAX - 1 then -LONG_MAX - 1 else v
  }

  /** Whether a text begins with a sign. */
  predicate IsSigned(a: string) {
    a != "" && (a[0] == '-' || a[0] == '+')
  }

  /** Where `strtol` starts reading digits: after white space, a sign and, for base 16, a `0x` prefix. */
  function DigitsPart(s: string, base: nat): (c: string)
    ensures |c| <= |s|
  {
    var a := SkipSpaces(s);
    var b := if IsSigned(a) then a[1..] else a;
    if base == 16 && |b| >= 3 && b[0] == '0' && (b[1] == 'x' || b[1] == 'X') && DigitValue(b[2]) < 16 then b[2..]
    else b
  }

  /** `strtol` with a 64-bit `long`: the value and the number of characters taken (0 when there is no number). */
  function Strtol(s: string, base: nat): (r: (int, nat))
    requires base == 10 || base == 16
    ensures r.1 <= |s|
  {
    var a := SkipSpaces(s);
    var c := DigitsPart(s, base);
    var (v, n) := ScanDigits(c, base, 0);
    var value: int := if a != "" && a[0] == '-' then 0 - v else v;
    if n == 0 then (0, 0) else (Clamp(value), |s| - |c| + n)
  }

  /** A value of 256 or more takes at least three characters. */
  lemma StrtolLength(s: string, base: nat)
    requires base == 10 || base == 16
    ensures var (i, n) := Strtol(s, base); i >= 256 ==> n >= 3
  {
    hide ScanDigits, SkipSpaces, DigitsPart;
    if ScanDigits(DigitsPart(s, base), base, 0).1 <= 2 {
      ShortScanIsSmall(DigitsPart(s, base), base);
    }
  }

  lemma StrtolOfDigits(s: string, n: nat, k: nat)
    requires s != "" && '0' <= s[0] <= '9'
    requires ScanDigits(s, 10, 0) == (n, k) && k > 0
    requires n <= LONG_MAX
    ensures Strtol(s, 10) == (n, k)
  {
    assert DigitsPart(s, 10) == s && SkipSpaces(s) == s;
  }

  lemma StrtolOfItoa(n: nat, rest: string)
    requires n <= LONG_MAX
    requires rest != "" ==> DigitValue(rest[0]) >= 10
    ensures Strtol(Itoa(n) + rest, 10) == (n, |Itoa(n)|)
  {
    ScanOfItoa(n, rest);
    assert ScanDigits(rest, 10, n) == (n, 0);
    StrtolOfDigits(Itoa(n) + rest, n, |Itoa(n)|);
  }
}
