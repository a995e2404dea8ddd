/**
 Numeric character references (plparse/xmllexer.c:646-682; section 4.1 of XML
 1.0): which texts the decoder takes for one, and the number each stands for,
 against an account of written numbers that does without `strtol`.
 */
module References {
  import opened CText
  import opened Decimal
  import opened Entities
  import Utf8

  // ----- written numbers

  const LOWER_DIGITS := "0123456789abcdef"
  const UPPER_DIGITS := "0123456789ABCDEF"

  /** `s` writes the digits `ds`, with letters of either case. */
  predicate Writes(s: string, ds: seq<nat>, base: nat)
    requires base <= 16
  {
    && |s| == |ds|
    && forall i :: 0 <= i < |s| ==> ds[i] < base && (s[i] == LOWER_DIGITS[ds[i]] || s[i] == UPPER_DIGITS[ds[i]])
  }

  /** The number with the given digits, highest first. */
  function Value(ds: seq<nat>, base: nat): nat {
    if ds == [] then 0 else Value(ds[..|ds| - 1], base) * base + ds[|ds| - 1]
  }

  lemma DigitsHaveValues(d: nat)
    requires d < 16
    ensures DigitValue(LOWER_DIGITS[d]) == d && DigitValue(UPPER_DIGITS[d]) == d
  {
  }

  lemma ValuesHaveDigits(c: char)
    ensures var d := DigitValue(c); d < 16 ==> c == LOWER_DIGITS[d] || c == UPPER_DIGITS[d]
  {
  }

  lemma DigitIsScanned(c: char, d: nat, base: nat, acc: nat, rest: string)
    requires d < base <= 16 && (c == LOWER_DIGITS[d] || c == UPPER_DIGITS[d])
    ensures var (v, k) := ScanDigits(rest, base, acc * base + d); ScanDigits([c] + rest, base, acc) == (v, k + 1)
  {
    hide DigitValue;
    DigitsHaveValues(d);
    assert ([c] + rest)[1..] == rest;
  }

  lemma {:induction false} ScanOfWritten(s: string, ds: seq<nat>, base: nat, rest: string)
    requires base <= 16 && Writes(s, ds, base)
    ensures var (v, k) := ScanDigits(rest, base, Value(ds, base));
            ScanDigits(s + rest, base, 0) == (v, k + |s|)
    decreases |s|
  {
    hide ScanDigits;
    if s == "" {
      assert s + rest == rest;
    } else {
      var n := |s| - 1;
      ScanOfWritten(s[..n], ds[..n], base, [s[n]] + rest);
      DigitIsScanned(s[n], ds[n], base, Value(ds[..n], base), rest);
      assert s + rest == s[..n] + ([s[n]] + rest);
    }
  }

  lemma {:induction false} ScanStops(s: string, base: nat, acc: nat)
    requires base <= 16
    ensures var k := ScanDigits(s, base, acc).1;
            && (forall i :: 0 <= i < k ==> DigitValue(s[i]) < base)
            && (k < |s| ==> DigitValue(s[k]) >= base)
  {
    if s != "" && DigitValue(s[0]) < base {
      ScanStops(s[1..], base, acc * base + DigitValue(s[0]));
    }
  }

  lemma ScanNothing(s: string, base: nat, acc: nat)
    requires base <= 36 && (s != "" ==> DigitValue(s[0]) >= base)
    ensures ScanDigits(s, base, acc) == (acc, 0)
  {
  }

  lemma ScanIsWritten(s: string, base: nat) returns (ds: seq<nat>)
    requires base <= 16
    ensures var (v, k) := ScanDigits(s, base, 0);
            Writes(s[..k], ds, base) && v == Value(ds, base) && (k < |s| ==> DigitValue(s[k]) >= base)
  {
    hide Value, DigitValue, ScanDigits;
    var k := ScanDigits(s, base, 0).1;
    ScanStops(s, base, 0);
    ds := seq(k, i requires 0 <= i < k => DigitValue(s[i]));
    forall i | 0 <= i < k
      ensures ds[i] < base && (s[i] == LOWER_DIGITS[ds[i]] || s[i] == UPPER_DIGITS[ds[i]])
    {
      ValuesHaveDigits(s[i]);
    }
    ScanOfWritten(s[..k], ds, base, s[k..]);
    assert s[..k] + s[k..] == s;
    assert ScanDigits(s[k..], base, Value(ds, base))
        == (Value(ds, base), 0) by { ScanNothing(s[k..], base, Value(ds, base)); }
  }

  /** A number as `strtol` takes it. */
  datatype Number = Number(blanks: string, sign: string, prefix: string, digits: string, ds: seq<nat>)

  predicate IsSign(s: string) {
    s == "" || s == "+" || s == "-"
  }

  predicate IsPrefix(s: string, base: nat) {
    s == "" || (base == 16 && (s == "0x" || s == "0X"))
  }

  predicate IsNumber(w: Number, base: nat)
    requires base <= 16
  {
    && AllSpaces(w.blanks) && IsSign(w.sign) && IsPrefix(w.prefix, base)
    && w.digits != "" && Writes(w.digits, w.ds, base)
  }

  function NumberText(w: Number): string {
    w.blanks + (w.sign + (w.prefix + w.digits))
  }

  function NumberValue(w: Number, base: nat): int {
    if w.sign == "-" then 0 - Value(w.ds, base) else Value(w.ds, base)
  }

  lemma NothingToSkip(s: string)
    requires s != "" && !IsSpace(s[0])
    ensures SkipSpaces(s) == s
  {
  }

  lemma OneIsSkipped(c: char, s: string)
    requires IsSpace(c)
    ensures SkipSpaces([c] + s) == SkipSpaces(s)
  {
    assert ([c] + s)[1..] == s;
  }

  lemma FirstSpace(blanks: string)
    requires AllSpaces(blanks) && blanks != ""
    ensures IsSpace(blanks[0]) && AllSpaces(blanks[1..])
  {
  }

  lemma {:induction false} SpacesAreSkipped(blanks: string, s: string)
    requires AllSpaces(blanks) && s != "" && !IsSpace(s[0])
    ensures SkipSpaces(blanks + s) == s
  {
    hide IsSpace, SkipSpaces, AllSpaces;
    if blanks == "" {
      assert blanks + s == s;
      NothingToSkip(s);
    } else {
      FirstSpace(blanks);
      SpacesAreSkipped(blanks[1..], s);
      OneIsSkipped(blanks[0], blanks[1..] + s);
      assert blanks + s == [blanks[0]] + (blanks[1..] + s);
    }
  }

  lemma DigitsAreNoSigns(c: char)
    requires DigitValue(c) < 16
    ensures !IsSpace(c) && c != '-' && c != '+' && c != 'x' && c != 'X'
  {
  }

  lemma NoDigits()
    ensures DigitValue('0') == 0 && DigitValue(';') == 36 && !IsSpace('+') && !IsSpace('-')
  {
  }

  lemma DigitsAtOnce(s: string, base: nat)
    requires base == 10 || base == 16
    requires s != "" && DigitValue(s[0]) < base && (|s| >= 2 ==> s[1] != 'x' && s[1] != 'X')
    ensures DigitsPart(s, base) == s && SkipSpaces(s) == s && !IsSigned(s)
  {
    hide DigitValue, SkipSpaces, IsSpace;
    assert !IsSpace(s[0]) && !IsSigned(s) by { DigitsAreNoSigns(s[0]); }
    NothingToSkip(s);
    var b := SkipSpaces(s);
    assert b == s && !(|b| >= 3 && (b[1] == 'x' || b[1] == 'X'));
  }

  lemma DigitsBehindPrefix(t: string)
    requires |t| > 2 && t[0] == '0' && (t[1] == 'x' || t[1] == 'X') && DigitValue(t[2]) < 16
    ensures DigitsPart(t, 16) == t[2..] && SkipSpaces(t) == t && !IsSigned(t)
  {
    hide DigitValue, SkipSpaces;
    NothingToSkip(t);
  }

  /** What comes behind a sign. */
  lemma PrefixIsSkipped(prefix: string, s: string, base: nat)
    requires (base == 10 || base == 16) && IsPrefix(prefix, base)
    requires s != "" && DigitValue(s[0]) < base && (|s| >= 2 ==> s[1] != 'x' && s[1] != 'X')
    ensures var t := prefix + s; t != "" && DigitsPart(t, base) == s && SkipSpaces(t) == t && !IsSigned(t)
  {
    hide DigitValue, SkipSpaces, DigitsPart;
    var t := prefix + s;
    if prefix == "" {
      assert t == s;
      DigitsAtOnce(s, base);
    } else {
      assert |prefix| == 2 && t[0] == prefix[0] && t[1] == prefix[1] && t[2] == s[0] && t[2..] == s;
      DigitsBehindPrefix(t);
    }
  }

  lemma SignIsSkipped(blanks: string, sign: string, s: string, base: nat)
    requires AllSpaces(blanks) && IsSign(sign) && s != "" && SkipSpaces(s) == s && !IsSigned(s)
    ensures DigitsPart(blanks + (sign + s), base) == DigitsPart(s, base)
    ensures SkipSpaces(blanks + (sign + s)) == sign + s
  {
    hide DigitValue, SkipSpaces, IsSpace, AllSpaces;
    NoDigits();
    var t := sign + s;
    if sign == "" {
      assert t == s;
    } else {
      assert t[0] == sign[0] && t[1..] == s;
    }
    SpacesAreSkipped(blanks, t);
  }

  lemma StrtolUnfolds(s: string, base: nat)
    requires base == 10 || base == 16
    ensures var (c, minus) := (DigitsPart(s, base), SkipSpaces(s) != "" && SkipSpaces(s)[0] == '-');
            var (v, n) := ScanDigits(c, base, 0);
            Strtol(s, base) ==
            if n == 0 then (0, 0) else (Clamp(if minus then 0 - v else v), |s| - |c| + n)
  {
    hide DigitsPart, SkipSpaces, ScanDigits;
  }

  predicate EndsNumber(rest: string) {
    rest == "" || rest[0] == ';'
  }

  lemma DigitsBehind(w: Number, base: nat, rest: string)
    requires (base == 10 || base == 16) && IsNumber(w, base) && EndsNumber(rest)
    ensures var s := w.digits + rest;
            && s != "" && DigitValue(s[0]) < base && (|s| >= 2 ==> s[1] != 'x' && s[1] != 'X')
            && ScanDigits(s, base, 0) == (Value(w.ds, base), |w.digits|)
  {
    hide DigitValue, Value;
    NoDigits();
    DigitsHaveValues(w.ds[0]);
    if |w.digits| >= 2 {
      DigitsHaveValues(w.ds[1]);
      DigitsAreNoSigns(w.digits[1]);
    }
    ScanOfWritten(w.digits, w.ds, base, rest);
    ScanNothing(rest, base, Value(w.ds, base));
  }

  /** `strtol` takes the whole of a number, and gives its value as far as it can hold it. */
  lemma StrtolOfNumber(w: Number, base: nat, rest: string)
    requires (base == 10 || base == 16) && IsNumber(w, base) && EndsNumber(rest)
    ensures Strtol(NumberText(w) + rest, base) == (Clamp(NumberValue(w, base)), |NumberText(w)|)
  {
    hide Writes, DigitsPart, SkipSpaces, ScanDigits, Value, Clamp, Strtol, IsPrefix, AllSpaces, DigitValue, EndsNumber;
    var s, body, t := w.digits + rest, w.prefix + (w.digits + rest), NumberText(w) + rest;
    assert t == w.blanks + (w.sign + body);
    DigitsBehind(w, base, rest);
    PrefixIsSkipped(w.prefix, s, base);
    SignIsSkipped(w.blanks, w.sign, body, base);
    StrtolUnfolds(t, base);
  }

  function Unsigned(a: string): string {
    if IsSigned(a) then a[1..] else a
  }

  lemma DigitsPartForms(s: string, base: nat)
    ensures var (b, c) := (Unsigned(SkipSpaces(s)), DigitsPart(s, base));
            || c == b
            || (base == 16 && |b| >= 3 && b[0] == '0' && (b[1] == 'x' || b[1] == 'X') && c == b[2..])
  {
    hide SkipSpaces, DigitValue;
  }

  lemma SignOf(a: string) returns (sign: string)
    ensures IsSign(sign) && a == sign + Unsigned(a) && (a != "" && a[0] == '-' <==> sign == "-")
  {
    if IsSigned(a) {
      sign := [a[0]];
    } else {
      sign := "";
      assert a == "" + a;
    }
  }

  lemma PrefixOf(b: string, c: string, base: nat) returns (prefix: string)
    requires || c == b
             || (base == 16 && |b| >= 3 && b[0] == '0' && (b[1] == 'x' || b[1] == 'X') && c == b[2..])
    ensures IsPrefix(prefix, base) && b == prefix + c
  {
    if c == b {
      prefix := "";
      assert b == "" + c;
    } else {
      prefix := [b[0], b[1]];
    }
  }

  /** The sign and the prefix in front of the digits. */
  lemma SignAndPrefix(s: string, base: nat) returns (sign: string, prefix: string)
    ensures IsSign(sign) && IsPrefix(prefix, base)
    ensures SkipSpaces(s) == sign + (prefix + DigitsPart(s, base))
    ensures SkipSpaces(s) != "" && SkipSpaces(s)[0] == '-' <==> sign == "-"
  {
    hide SkipSpaces, DigitsPart, IsSign, IsPrefix, Unsigned;
    DigitsPartForms(s, base);
    sign := SignOf(SkipSpaces(s));
    prefix := PrefixOf(Unsigned(SkipSpaces(s)), DigitsPart(s, base), base);
  }

  /** And it takes nothing else. */
  lemma StrtolIsNumber(s: string, base: nat) returns (w: Number)
    requires (base == 10 || base == 16) && Strtol(s, base).1 > 0
    ensures IsNumber(w, base) && Strtol(s, base) == (Clamp(NumberValue(w, base)), |NumberText(w)|)
    ensures NumberText(w) <= s
  {
    hide SkipSpaces, DigitsPart, ScanDigits, Value, Clamp, Strtol, DigitValue, Writes, IsSign, IsPrefix, AllSpaces;
    StrtolUnfolds(s, base);
    SkippedAreSpaces(s);
    var a, c := SkipSpaces(s), DigitsPart(s, base);
    var sign, prefix := SignAndPrefix(s, base);
    var ds := ScanIsWritten(c, base);
    var n := ScanDigits(c, base, 0).1;
    w := Number(s[..|s| - |a|], sign, prefix, c[..n], ds);
    assert s == w.blanks + a && c == w.digits + c[n..];
    assert s == NumberText(w) + c[n..];
  }

  // ----- references

  function Base(hex: bool): nat {
    if hex then 16 else 10
  }

  /** `&#` or `&#x`, a positive number and `;`; for `&#x` the number does not start with `0x`. */
  predicate IsReference(hex: bool, w: Number) {
    && IsNumber(w, Base(hex)) && NumberValue(w, Base(hex)) >= 1
    && (hex && w.blanks + w.sign == "" ==> w.prefix != "0x")
  }

  /** What follows the ampersand. */
  function ReferenceText(hex: bool, w: Number): string {
    (if hex then "#x" else "#") + NumberText(w) + ";"
  }

  predicate StartsWithName(t: string) {
    exists c <- NAMES :: NAMES[c] <= t
  }

  ghost predicate StartsWithNumber(t: string) {
    exists hex: bool, w :: IsReference(hex, w) && ReferenceText(hex, w) <= t
  }

  lemma FrontHasNoX(w: Number, base: nat)
    requires base <= 16 && IsNumber(w, base)
    ensures forall i :: 0 <= i < |w.blanks + w.sign| ==> (w.blanks + w.sign)[i] != 'x'
    ensures forall i :: 0 <= i < |w.digits| ==> w.digits[i] != 'x'
  {
    hide DigitValue;
    forall i | 0 <= i < |w.digits|
      ensures w.digits[i] != 'x'
    {
      DigitsHaveValues(w.ds[i]);
      DigitsAreNoSigns(w.digits[i]);
    }
  }

  lemma FirstTwo(front: string, back: string)
    ensures front == "" ==> front + back == back
    ensures |front| == 1 && back != "" ==> (front + back)[0] == front[0] && (front + back)[1] == back[0]
    ensures |front| >= 2 ==> (front + back)[0] == front[0] && (front + back)[1] == front[1]
  {
  }

  lemma PlaceInBack(prefix: string, digits: string, base: nat)
    requires IsPrefix(prefix, base) && digits != "" && forall i :: 0 <= i < |digits| ==> digits[i] != 'x'
    ensures var back := prefix + digits;
            back != "" && back[0] != 'x' && (|back| >= 2 && back[1] == 'x' <==> prefix == "0x")
  {
    FirstTwo(prefix, digits);
  }

  /** Where an `x` can stand in a number. */
  lemma PlaceOfX(w: Number, base: nat)
    requires base == 10 || base == 16
    requires IsNumber(w, base)
    ensures NumberText(w) != "" && NumberText(w)[0] != 'x'
    ensures |NumberText(w)| >= 2 && NumberText(w)[1] == 'x' <==> w.blanks + w.sign == "" && w.prefix == "0x"
  {
    hide Writes, AllSpaces, IsSign, IsPrefix;
    var front, back := w.blanks + w.sign, w.prefix + w.digits;
    FrontHasNoX(w, base);
    PlaceInBack(w.prefix, w.digits, base);
    FirstTwo(front, back);
    Associate(w.blanks, w.sign, back);
  }

  lemma AtNumber(hex: bool, w: Number, rest: string)
    requires IsNumber(w, Base(hex)) && (hex && w.blanks + w.sign == "" ==> w.prefix != "0x")
    ensures ReferenceNumber((if hex then "x" else "") + (NumberText(w) + (";" + rest)))
         == (Clamp(NumberValue(w, Base(hex))), (if hex then 1 else 0) + |NumberText(w)|)
  {
    hide IsNumber, Strtol, Clamp, NumberValue;
    var s := NumberText(w) + (";" + rest);
    PlaceOfX(w, Base(hex));
    StrtolOfNumber(w, Base(hex), ";" + rest);
    assert s[0] == NumberText(w)[0] && s[1] == if |NumberText(w)| == 1 then ';' else NumberText(w)[1];
    if hex {
      assert ("x" + s)[0] == 'x' && ("x" + s)[2] == s[1];
      assert ("x" + s)[1..] == s;
    } else {
      assert "" + s == s;
    }
  }

  lemma NumberIsReference(hex: bool, w: Number, rest: string)
    requires IsReference(hex, w)
    ensures Reference(ReferenceText(hex, w) + rest)
         == Ref(Chars(Utf8.Encode(Clamp(NumberValue(w, Base(hex))))), |ReferenceText(hex, w)|)
  {
    hide IsNumber, ReferenceNumber, NumberValue, NumberText, Utf8.Encode, Chars;
    var t := ReferenceText(hex, w) + rest;
    var tp := (if hex then "x" else "") + (NumberText(w) + (";" + rest));
    assert t == "#" + tp;
    assert t[0] == '#' && t[1..] == tp;
    AtNumber(hex, w, rest);
    assert tp[|ReferenceText(hex, w)| - 2] == ';';
    assert NamedReference(t).None?;
  }

  lemma NumberTaken(s: string, base: nat) returns (w: Number)
    requires (base == 10 || base == 16) && Strtol(s, base).0 >= 1
    ensures IsNumber(w, base) && NumberValue(w, base) >= 1
    ensures Strtol(s, base).1 == |NumberText(w)| && NumberText(w) <= s
  {
    hide IsNumber, Strtol, NumberValue, NumberText;
    StrtolUnfolds(s, base);
    w := StrtolIsNumber(s, base);
  }

  lemma ReferenceIsNumber(t: string)
    requires NumericReference(t).Some?
    ensures StartsWithNumber(t)
  {
    hide IsNumber, Strtol, NumberValue, NumberText, Utf8.Encode, Chars;
    var tp := t[1..];
    var hex := IsHex(tp);
    var s := if hex then tp[1..] else tp;
    var w := NumberTaken(s, Base(hex));
    var n := |NumberText(w)|;
    assert s[n] == ';' && s[..n] == NumberText(w);
    PlaceOfX(w, Base(hex));
    assert hex && n >= 2 ==> tp[2] == NumberText(w)[1];
    hide IsHex, NumericReference;
    assert t[..1] == "#";
    assert ReferenceText(hex, w) <= t by {
      assert hex ==> t[..2] == "#x";
      assert t == (if hex then "#x" else "#") + s;
    }
  }

  /** Behind `&#` or `&#x`, a positive number and `;` give the UTF-8 form of the number. */
  lemma DecodeOfReference(hex: bool, w: Number, rest: string)
    requires IsReference(hex, w)
    ensures var v := Value(w.ds, Base(hex));
            Decode("&" + (ReferenceText(hex, w) + rest))
            == Chars(Utf8.Encode(if v > 0x7FFF_FFFF_FFFF_FFFF then 0x7FFF_FFFF_FFFF_FFFF else v)) + Decode(rest)
  {
    hide IsNumber, Reference, NumberText, Utf8.Encode, Chars, Value;
    NumberIsReference(hex, w, rest);
    DecodeAtAmpersand(ReferenceText(hex, w) + rest);
    assert (ReferenceText(hex, w) + rest)[|ReferenceText(hex, w)|..] == rest;
  }

  lemma NamesAreNamed(t: string)
    ensures NamedReference(t).Some? <==> StartsWithName(t)
  {
    assert "quot;" <= t ==> NAMES['\"'] <= t;
    assert "amp;" <= t ==> NAMES['&'] <= t;
    assert "apos;" <= t ==> NAMES['\''] <= t;
    assert "lt;" <= t ==> NAMES['<'] <= t;
    assert "gt;" <= t ==> NAMES['>'] <= t;
  }

  /** Every other ampersand stands for itself, and what follows it is not part of a reference. */
  lemma LiteralIff(t: string)
    ensures Reference(t).used == 0 <==> !StartsWithName(t) && !StartsWithNumber(t)
    ensures !StartsWithName(t) && !StartsWithNumber(t) ==> Decode("&" + t) == "&" + Decode(t)
  {
    hide NumericReference, NamedReference, Decode;
    NamesAreNamed(t);
    if StartsWithNumber(t) {
      var hex: bool, w :| IsReference(hex, w) && ReferenceText(hex, w) <= t;
      assert t == ReferenceText(hex, w) + t[|ReferenceText(hex, w)|..];
      NumberIsReference(hex, w, t[|ReferenceText(hex, w)|..]);
    } else if NumericReference(t).Some? {
      ReferenceIsNumber(t);
    }
    DecodeAtAmpersand(t);
  }

  // ----- printed numbers

  function HexDigit(d: nat, upper: bool): char
    requires d < 16
  {
    if upper then UPPER_DIGITS[d] else LOWER_DIGITS[d]
  }

  /** Hexadecimal output. */
  function Hex(n: nat, upper: bool): (s: string)
    ensures s != ""
  {
    if n < 16 then [HexDigit(n, upper)] else Hex(n / 16, upper) + [HexDigit(n % 16, upper)]
  }

  function DigitsOf(n: nat, base: nat): (ds: seq<nat>)
    requires base == 10 || base == 16
    ensures ds != []
  {
    if n < base then [n] else DigitsOf(n / base, base) + [n % base]
  }

  lemma WrittenMore(s: string, ds: seq<nat>, c: char, d: nat, base: nat)
    requires d < base <= 16 && Writes(s, ds, base) && (c == LOWER_DIGITS[d] || c == UPPER_DIGITS[d])
    ensures Writes(s + [c], ds + [d], base) && Value(ds + [d], base) == Value(ds, base) * base + d
  {
    assert (ds + [d])[..|ds|] == ds;
  }

  lemma DecimalDigit(d: nat)
    requires d < 10
    ensures Digit(d) == LOWER_DIGITS[d]
  {
  }

  lemma HexDigitIsDigit(d: nat, upper: bool)
    requires d < 16
    ensures HexDigit(d, upper) == LOWER_DIGITS[d] || HexDigit(d, upper) == UPPER_DIGITS[d]
  {
  }

  lemma {:induction false} HexWrites(n: nat, upper: bool)
    ensures Writes(Hex(n, upper), DigitsOf(n, 16), 16) && Value(DigitsOf(n, 16), 16) == n
  {
    HexDigitIsDigit(n % 16, upper);
    hide HexDigit;
    if n < 16 {
      assert DigitsOf(n, 16)[..0] == [];
    } else {
      hide Value, Writes;
      HexWrites(n / 16, upper);
      WrittenMore(Hex(n / 16, upper), DigitsOf(n / 16, 16), HexDigit(n % 16, upper), n % 16, 16);
    }
  }

  lemma {:induction false} ItoaWrites(n: nat)
    ensures Writes(Itoa(n), DigitsOf(n, 10), 10) && Value(DigitsOf(n, 10), 10) == n
  {
    if n < 10 {
      assert DigitsOf(n, 10)[..0] == [];
    } else {
      hide Digit, Value, Writes;
      ItoaWrites(n / 10);
      DecimalDigit(n % 10);
      WrittenMore(Itoa(n / 10), DigitsOf(n / 10, 10), Digit(n % 10), n % 10, 10);
    }
  }

  /** A code point printed in decimal or, in either case of letters, in hexadecimal. */
  lemma DecodeOfPrinted(v: nat, rest: string)
    requires 0 < v <= LONG_MAX
    ensures Decode("&#" + Itoa(v) + ";" + rest) == Chars(Utf8.Encode(v)) + Decode(rest)
    ensures forall upper: bool :: Decode("&#x" + Hex(v, upper) + ";" + rest) == Chars(Utf8.Encode(v)) + Decode(rest)
  {
    hide Decode, Utf8.Encode, Chars, Value, Hex, Itoa, Writes, DigitsOf;
    var w := Number("", "", "", Itoa(v), DigitsOf(v, 10));
    ItoaWrites(v);
    DecodeOfReference(false, w, rest);
    assert "&#" + Itoa(v) + ";" + rest == "&" + (ReferenceText(false, w) + rest);
    forall upper: bool
      ensures Decode("&#x" + Hex(v, upper) + ";" + rest) == Chars(Utf8.Encode(v)) + Decode(rest)
    {
      var w := Number("", "", "", Hex(v, upper), DigitsOf(v, 16));
      HexWrites(v, upper);
      DecodeOfReference(true, w, rest);
      assert "&#x" + Hex(v, upper) + ";" + rest == "&" + (ReferenceText(true, w) + rest);
    }
  }
}
