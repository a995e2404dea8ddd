/**
 The XML escaper (plparse/xmlparser.c:810-842) and the decoder of entity and
 character references (plparse/xmllexer.c:603-687), over the predefined
 entities of section 4.6 and the character references of section 4.1 of XML 1.0.
 */
module Entities {
  import opened CText
  import opened Decimal
  import Utf8

  datatype QuoteType = NoQuote | SingleQuote | DoubleQuote

  // ----- escaping

  function EscapeChar(c: char, quote: QuoteType): (e: string)
    ensures e != ""
  {
    match c
    case '\"' => if quote == DoubleQuote then "&quot;" else [c]
    case '\'' => if quote == SingleQuote then "&apos;" else [c]
    case '&' => "&amp;"
    case '<' => "&lt;"
    case '>' => "&gt;"
    case _ =>
      if c == 127 as char then "&#127;"
      else if c == '\t' || c == '\n' || c >= ' ' then [c]
      else "&#" + Itoa(c as int) + ";"
  }

  /** The text that `xml_escape_string` returns for the C string `s`. */
  function Escape(s: string, quote: QuoteType): string {
    if s == "" then ""
    else EscapeChar(s[0], quote) + Escape(s[1..], quote)
  }

  // ----- decoding

  function Chars(bs: seq<Utf8.Byte>): (s: string)
    ensures |s| == |bs|
  {
    seq(|bs|, i requires 0 <= i < |bs| => bs[i] as int as char)
  }

  datatype Ref = Ref(text: string, used: nat)

  /** The entity table, in its order; `t` is what follows the ampersand. */
  function NamedReference(t: string): (r: Option<Ref>)
    ensures r.Some? ==> r.value.used <= |t| && r.value.used >= 3 && |r.value.text| == 1
  {
    if "quot;" <= t then Some(Ref("\"", 5))
    else if "amp;" <= t then Some(Ref("&", 4))
    else if "apos;" <= t then Some(Ref("\'", 5))
    else if "lt;" <= t then Some(Ref("<", 3))
    else if "gt;" <= t then Some(Ref(">", 3))
    else None
  }

  predicate IsHex(tp: string) {
    |tp| >= 2 && tp[0] == 'x' && !(|tp| >= 3 && tp[2] == 'x')
  }

  /** The number after `&#`, and how many characters of `tp` it takes. */
  function ReferenceNumber(tp: string): (r: (int, nat))
    ensures r.1 <= |tp|
  {
    if IsHex(tp) then
      var (i, n) := Strtol(tp[1..], 16);
      (i, n + 1)
    else Strtol(tp, 10)
  }

  function NumericReference(t: string): (r: Option<Ref>)
    ensures r.Some? ==> 2 <= r.value.used <= |t|
  {
    if t == "" || t[0] != '#' then None
    else
      var tp := t[1..];
      var (i, n) := ReferenceNumber(tp);
      if n == |tp| || tp[n] != ';' || i < 1 then None
      else Some(Ref(Chars(Utf8.Encode(i)), n + 2))
  }

  /** What an ampersand followed by `t` stands for; a malformed reference is literal text. */
  function Reference(t: string): (r: Ref)
    ensures r.used <= |t|
  {
    match NamedReference(t)
    case Some(r) => r
    case None =>
      match NumericReference(t)
      case Some(r) => r
      case None => Ref("&", 0)
  }

  /** The text that `lexer_decode_entities` returns for the C string `s`. */
  function Decode(s: string): string {
    if s == "" then ""
    else if s[0] != '&' then [s[0]] + Decode(s[1..])
    else
      var r := Reference(s[1..]);
      r.text + Decode(s[1..][r.used..])
  }

  // ----- decoding undoes escaping

  const NAMES := map['\"' := "quot;", '&' := "amp;", '\'' := "apos;", '<' := "lt;", '>' := "gt;"]

  lemma NamedReferenceOf(name: string, c: char, rest: string)
    requires c in NAMES && NAMES[c] == name
    ensures Reference(name + rest) == Ref([c], |name|)
  {
    var t := name + rest;
    assert t[0] == name[0] && t[1] == name[1];
    assert name <= t;
    assert "quot;"[0] == 'q' && "amp;"[1] == 'm' && "apos;"[1] == 'p' && "lt;"[0] == 'l' && "gt;"[0] == 'g';
  }

  lemma DecodeAtAmpersand(t: string)
    ensures Decode("&" + t) == Reference(t).text + Decode(t[Reference(t).used..])
  {
    assert ("&" + t)[1..] == t;
  }

  lemma DecodeOfNamed(name: string, c: char, rest: string)
    requires c in NAMES && NAMES[c] == name
    ensures Decode(("&" + name) + rest) == [c] + Decode(rest)
  {
    NamedReferenceOf(name, c, rest);
    DecodeAtAmpersand(name + rest);
    assert "&" + (name + rest) == ("&" + name) + rest;
    assert (name + rest)[|name|..] == rest;
  }

  lemma NumericReferenceOf(i: nat, rest: string)
    requires 0 < i < 128
    ensures Reference("#" + (Itoa(i) + (";" + rest))) == Ref([i as char], |Itoa(i)| + 2)
  {
    hide Itoa, Strtol;
    var tp := Itoa(i) + (";" + rest);
    var t := "#" + tp;
    assert t[1..] == tp;
    StrtolOfItoa(i, ";" + rest);
    assert tp[0] == Itoa(i)[0];
    assert !IsHex(tp);
    assert tp[|Itoa(i)|] == ';';
    assert Chars(Utf8.Encode(i)) == [i as char];
    assert t[0] == '#';
    assert NamedReference(t).None?;
  }

  lemma DecodeOfNumeric(i: nat, rest: string)
    requires 0 < i < 128
    ensures Decode(("&#" + Itoa(i) + ";") + rest) == [i as char] + Decode(rest)
  {
    hide *;
    var t := "#" + (Itoa(i) + (";" + rest));
    NumericReferenceOf(i, rest);
    DecodeAtAmpersand(t);
    assert "&" + t == ("&#" + Itoa(i) + ";") + rest;
    assert t[|Itoa(i)| + 2..] == rest;
  }

  lemma DecodeOfLiteral(c: char, rest: string)
    requires c != '&'
    ensures Decode([c] + rest) == [c] + Decode(rest)
  {
    assert ([c] + rest)[1..] == rest;
  }

  lemma Itoa127()
    ensures "&#127;" == "&#" + Itoa(127) + ";"
  {
    assert Itoa(12) == ['1', '2'];
    assert Itoa(127) == Itoa(12) + ['7'];
  }

  /** An escaped character is itself, a predefined entity or a decimal reference. */
  lemma EscapedForms(c: char, quote: QuoteType)
    ensures var e := EscapeChar(c, quote);
            || (e == [c] && c != '&')
            || (c in NAMES && e == "&" + NAMES[c])
            || (c !in NAMES && c as int < 128 && e == "&#" + Itoa(c as int) + ";")
  {
    if c in NAMES {
      assert "&" + NAMES[c]
        == match c
           case '\"' => "&quot;" case '&' => "&amp;" case '\'' => "&apos;" case '<' => "&lt;" case _ => "&gt;";
    } else if c as int == 127 {
      Itoa127();
    }
  }

  lemma DecodeOfEscapedChar(c: char, quote: QuoteType, rest: string)
    requires c != '\0'
    ensures Decode(EscapeChar(c, quote) + rest) == [c] + Decode(rest)
  {
    if EscapeChar(c, quote) == [c] {
      assert c != '&';
      DecodeOfLiteral(c, rest);
    } else {
      EscapedForms(c, quote);
      if c in NAMES {
        DecodeOfNamed(NAMES[c], c, rest);
      } else {
        DecodeOfNumeric(c as int, rest);
      }
    }
  }

  /** `lexer_decode_entities (xml_escape_string (s, q))` is `s`, whatever the quote mode. */
  lemma {:induction false} DecodeUndoesEscape(s: string, quote: QuoteType)
    requires NulFree(s)
    ensures Decode(Escape(s, quote)) == s
  {
    if s != "" {
      DecodeUndoesEscape(s[1..], quote);
      DecodeOfEscapedChar(s[0], quote, Escape(s[1..], quote));
    }
  }

  // ----- decoding never grows the text

  lemma ShortEncoding(i: int)
    ensures 0 <= i < 256 ==> |Utf8.Encode(i)| <= 2
  {
  }

  lemma NumericReferenceNeverGrows(t: string)
    requires NumericReference(t).Some?
    ensures |NumericReference(t).value.text| <= NumericReference(t).value.used + 1
  {
    hide Strtol, Utf8.Encode, IsHex;
    var tp := t[1..];
    if IsHex(tp) {
      StrtolLength(tp[1..], 16);
    } else {
      StrtolLength(tp, 10);
    }
    ShortEncoding(ReferenceNumber(tp).0);
  }

  lemma ReferenceNeverGrows(t: string)
    ensures |Reference(t).text| <= Reference(t).used + 1
  {
    if NumericReference(t).Some? {
      NumericReferenceNeverGrows(t);
    }
  }

  /** Whatever references a text holds, its decoded form is no longer. */
  lemma {:induction false} DecodeNeverGrows(s: string)
    ensures |Decode(s)| <= |s|
    decreases |s|
  {
    if s == "" {
    } else if s[0] != '&' {
      DecodeNeverGrows(s[1..]);
    } else {
      ReferenceNeverGrows(s[1..]);
      DecodeNeverGrows(s[1..][Reference(s[1..]).used..]);
    }
  }

  // ----- what the escaper lets through

  /** No markup character and no active quote is left, and every ampersand starts a reference. */
  predicate IsCleanAt(s: string, quote: QuoteType, i: nat)
    requires i < |s|
  {
    && s[i] != '<' && s[i] != '>' && s[i] as int != 127
    && (s[i] >= ' ' || s[i] == '\t' || s[i] == '\n')
    && (quote == SingleQuote ==> s[i] != '\'')
    && (quote == DoubleQuote ==> s[i] != '\"')
    && (s[i] == '&' ==> Reference(s[i + 1..]).used > 0)
  }

  lemma EscapedCharIsClean(c: char, quote: QuoteType, rest: string, i: nat)
    requires c != '\0' && i < |EscapeChar(c, quote)|
    ensures IsCleanAt(EscapeChar(c, quote) + rest, quote, i)
  {
    hide Reference, Itoa;
    var e := EscapeChar(c, quote);
    EscapedForms(c, quote);
    if |e| > 1 && i == 0 {
      if c in NAMES {
        NamedReferenceOf(NAMES[c], c, rest);
        assert (e + rest)[1..] == NAMES[c] + rest;
      } else {
        NumericReferenceOf(c as int, rest);
        assert (e + rest)[1..] == "#" + (Itoa(c as int) + (";" + rest));
      }
    }
  }

  lemma CleanTail(e: string, rest: string, quote: QuoteType, i: nat)
    requires |e| <= i < |e + rest| && IsCleanAt(rest, quote, i - |e|)
    ensures IsCleanAt(e + rest, quote, i)
  {
    hide Reference;
    assert (e + rest)[i + 1..] == rest[i - |e| + 1..];
  }

  lemma {:induction false} EscapeIsClean(s: string, quote: QuoteType)
    requires NulFree(s)
    ensures forall i :: 0 <= i < |Escape(s, quote)| ==> IsCleanAt(Escape(s, quote), quote, i)
  {
    if s != "" {
      hide EscapeChar, Reference;
      var e, rest := EscapeChar(s[0], quote), Escape(s[1..], quote);
      EscapeIsClean(s[1..], quote);
      forall i | 0 <= i < |e + rest|
        ensures IsCleanAt(e + rest, quote, i)
      {
        hide *;
        if i < |e| {
          EscapedCharIsClean(s[0], quote, rest, i);
        } else {
          CleanTail(e, rest, quote, i);
        }
      }
    }
  }

  // ----- what the escaper leaves as it is

  /** A printable character, tab or line feed that is neither markup nor the active quote. */
  predicate StandsForItself(c: char, quote: QuoteType) {
    && (c >= ' ' || c == '\t' || c == '\n') && c as int != 127
    && c !in "<>&"
    && (quote == SingleQuote ==> c != '\'')
    && (quote == DoubleQuote ==> c != '\"')
  }

  lemma EscapedLength(c: char, quote: QuoteType)
    ensures if StandsForItself(c, quote) then EscapeChar(c, quote) == [c] else |EscapeChar(c, quote)| > 1
  {
  }

  lemma {:induction false} EscapeNeverShrinks(s: string, quote: QuoteType)
    ensures |s| <= |Escape(s, quote)|
  {
    hide EscapeChar;
    if s != "" {
      EscapeNeverShrinks(s[1..], quote);
    }
  }

  /** Escaping changes a text exactly if one of its characters cannot stand for itself. */
  lemma {:induction false} EscapeKeepsIff(s: string, quote: QuoteType)
    ensures Escape(s, quote) == s <==> forall i :: 0 <= i < |s| ==> StandsForItself(s[i], quote)
  {
    hide EscapeChar, StandsForItself;
    if s != "" {
      EscapedLength(s[0], quote);
      EscapeNeverShrinks(s[1..], quote);
      EscapeKeepsIff(s[1..], quote);
      assert s == [s[0]] + s[1..];
      if StandsForItself(s[0], quote) {
        assert Escape(s, quote)[1..] == Escape(s[1..], quote);
      }
    }
  }

  // ----- the two passes of the escaper

  /** `snprintf (buf + at, sl, text)`, where `sl` is 8 with a buffer and 0 without one. */
  method Snprintf(buf: array?<char>, at: nat, text: string) returns (n: nat)
    requires buf != null ==> |text| < 8 && at + |text| < buf.Length
    modifies if buf == null then {} else {buf}
    ensures n == |text|
    ensures buf != null ==> buf[..at + n] == old(buf[..at]) + text
  {
    if buf != null {
      forall i | 0 <= i < |text| {
        buf[at + i] := text[i];
      }
      buf[at + |text|] := '\0';
    }
    n := |text|;
  }

  lemma EscapeCharIsShort(c: char, quote: QuoteType)
    ensures |EscapeChar(c, quote)| <= 6
  {
    if c as int < 32 {
      assert |Itoa(c as int)| <= 2;
    }
  }

  lemma EmptyTexts(quote: QuoteType)
    ensures Escape("", quote) == "" && Decode("") == ""
  {
  }

  lemma EscapeStep(s: string, k: nat, quote: QuoteType)
    requires k < |s|
    ensures Escape(s[k..], quote) == EscapeChar(s[k], quote) + Escape(s[k + 1..], quote)
  {
    hide EscapeChar;
    assert s[k..][1..] == s[k + 1..];
  }

  /** Without a buffer this sizes the output, with one it fills it; both agree with `Escape`. */
  method EscapeInternal(buf: array?<char>, s: string, quote: QuoteType) returns (n: nat)
    requires NulFree(s)
    requires buf != null ==> buf.Length == |Escape(s, quote)| + 1
    modifies if buf == null then {} else {buf}
    ensures n == |Escape(s, quote)| + 1
    ensures buf != null ==> buf[..] == Escape(s, quote) + "\0"
  {
    hide Escape, EscapeChar;
    var k, length := 0, 0;
    ghost var written := "";
    assert s[0..] == s;
    while k < |s|
      invariant k <= |s| && length == |written|
      invariant Escape(s, quote) == written + Escape(s[k..], quote)
      invariant buf != null ==> buf[..length] == written
    {
      var c := s[k];
      var e := EscapeChar(c, quote);
      EscapeCharIsShort(c, quote);
      EscapeStep(s, k, quote);
      if e == [c] {
        if buf != null {
          buf[length] := c;
        }
        length := length + 1;
      } else {
        var stored := Snprintf(buf, length, e);
        length := length + stored;
      }
      written := written + e;
      k := k + 1;
    }
    assert s[k..] == "";
    EmptyTexts(quote);
    if buf != null {
      buf[length] := '\0';
    }
    n := length + 1;
  }

  /** `xml_escape_string`: the buffer the sizing pass asks for is filled exactly. */
  method EscapeString(s: string, quote: QuoteType) returns (buf: array<char>)
    requires NulFree(s)
    ensures fresh(buf) && buf[..] == Escape(s, quote) + "\0"
  {
    var size := EscapeInternal(null, s, quote);
    buf := new char[size](_ => '\0');
    var _ := EscapeInternal(buf, s, quote);
  }

  // ----- the decoder's loop

  const ENTITIES := [('\"', "quot"), ('&', "amp"), ('\'', "apos"), ('<', "lt"), ('>', "gt")]

  lemma TableEntries()
    ensures ENTITIES[0].1 + ";" == "quot;" && ENTITIES[1].1 + ";" == "amp;" && ENTITIES[2].1 + ";" == "apos;"
    ensures ENTITIES[3].1 + ";" == "lt;" && ENTITIES[4].1 + ";" == "gt;"
  {
  }

  /** The search of the entity table: the index of the entry that matches, or the table's end. */
  method FindEntity(t: string) returns (i: nat)
    ensures i <= |ENTITIES|
    ensures NamedReference(t) ==
            if i < |ENTITIES| then Some(Ref([ENTITIES[i].0], |ENTITIES[i].1| + 1)) else None
  {
    i := 0;
    while i < |ENTITIES| && !(ENTITIES[i].1 + ";" <= t)
      invariant i <= |ENTITIES|
      invariant forall j :: 0 <= j < i ==> !(ENTITIES[j].1 + ";" <= t)
    {
      i := i + 1;
    }
    TableEntries();
    assert i > 0 ==> !(ENTITIES[0].1 + ";" <= t);
    assert i > 1 ==> !(ENTITIES[1].1 + ";" <= t);
    assert i > 2 ==> !(ENTITIES[2].1 + ";" <= t);
    assert i > 3 ==> !(ENTITIES[3].1 + ";" <= t);
    assert i > 4 ==> !(ENTITIES[4].1 + ";" <= t);
  }

  lemma CharsAt(bs: seq<Utf8.Byte>)
    ensures forall j :: 0 <= j < |bs| ==> Chars(bs)[j] == bs[j] as int as char
  {
  }

  /** The loop over the continuation bytes, six bits at a time. */
  method StoreContinuation(buf: array<char>, at: nat, i: nat, count: nat)
    requires at + count <= buf.Length
    modifies buf
    ensures buf[..at] == old(buf[..at])
    ensures buf[at..at + count] == Chars(Utf8.Continuation(i, count))
  {
    hide *;
    var k := count;
    while k > 0
      invariant 0 <= k <= count
      invariant forall j :: 0 <= j < at ==> buf[j] == old(buf[j])
      invariant forall j :: at <= j < at + count - k ==> buf[j] == Utf8.Continuation(i, count)[j - at] as int as char
    {
      k := k - 1;
      buf[at + count - 1 - k] := Utf8.ContinuationByte(i, k) as int as char;
    }
    CharsAt(Utf8.Continuation(i, count));
  }

  lemma EncodedChars(i: nat)
    ensures i < 128 ==> Chars(Utf8.Encode(i)) == [i as char]
    ensures i >= 128 ==>
              var count := Utf8.ContinuationCount(i);
              && count > 0
              && Chars(Utf8.Encode(i)) == [Utf8.LeadByte(i, count) as int as char] + Chars(Utf8.Continuation(i, count))
  {
    hide Utf8.LeadByte, Utf8.Continuation;
  }

  /** Stores a code point and steps over it. */
  method StoreChar(buf: array<char>, at: nat, i: nat) returns (n: nat)
    requires at + |Utf8.Encode(i)| <= buf.Length
    modifies buf
    ensures n == |Utf8.Encode(i)|
    ensures buf[..at + n] == old(buf[..at]) + Chars(Utf8.Encode(i))
  {
    hide Utf8.LeadByte, Utf8.Continuation, Utf8.Encode, Utf8.ContinuationCount;
    EncodedChars(i);
    if i < 128 {
      buf[at] := i as char;
      n := 1;
    } else {
      var count := Utf8.ContinuationCount(i);
      buf[at] := Utf8.LeadByte(i, count) as int as char;
      StoreContinuation(buf, at + 1, i, count);
      n := 1 + count;
    }
  }

  lemma DecodeStep(s: string, k: nat)
    requires k < |s|
    ensures s[k] != '&' ==> Decode(s[k..]) == [s[k]] + Decode(s[k + 1..])
    ensures var r := Reference(s[k + 1..]);
            s[k] == '&' ==> Decode(s[k..]) == r.text + Decode(s[k + 1 + r.used..])
  {
    hide Reference;
    assert s[k..][1..] == s[k + 1..];
    var used := Reference(s[k + 1..]).used;
    assert s[k + 1..][used..] == s[k + 1 + used..];
  }

  /** The branches of the decoder after an ampersand; `t` is the text behind it. */
  method DecodeReference(buf: array<char>, at: nat, t: string) returns (used: nat, stored: nat)
    requires at + 1 + |t| < buf.Length
    modifies buf
    ensures used == Reference(t).used && stored == |Reference(t).text| <= used + 1
    ensures buf[..at + stored] == old(buf[..at]) + Reference(t).text
  {
    hide NamedReference, ReferenceNumber, Utf8.Encode, IsHex, Strtol;
    ReferenceNeverGrows(t);
    var e := FindEntity(t);
    if e < |ENTITIES| {
      buf[at] := ENTITIES[e].0;
      return |ENTITIES[e].1| + 1, 1;
    }
    if t == "" || t[0] != '#' {
      buf[at] := '&';
      return 0, 1;
    }
    var (i, k) := ReferenceNumber(t[1..]);
    if k == |t| - 1 || t[1 + k] != ';' || i < 1 {
      buf[at] := '&';
      return 0, 1;
    }
    used := k + 2;
    stored := StoreChar(buf, at, i);
  }

  lemma Associate(a: string, b: string, c: string)
    ensures a + (b + c) == a + b + c
  {
  }

  /** One round of the loop: a character, or a reference. */
  method DecodeNext(buf: array<char>, n: nat, tok: string, rp: nat) returns (rp': nat, n': nat)
    requires n <= rp < |tok| && buf.Length == |tok| + 1
    modifies buf
    ensures n' <= rp' <= |tok| && rp < rp'
    ensures buf[..n'] + Decode(tok[rp'..]) == old(buf[..n]) + Decode(tok[rp..])
  {
    hide Decode, Reference;
    DecodeStep(tok, rp);
    if tok[rp] != '&' {
      buf[n] := tok[rp];
      rp', n' := rp + 1, n + 1;
      assert buf[..n'] == old(buf[..n]) + [tok[rp]];
      Associate(old(buf[..n]), [tok[rp]], Decode(tok[rp'..]));
    } else {
      var used, stored := DecodeReference(buf, n, tok[rp + 1..]);
      rp', n' := rp + 1 + used, n + stored;
      Associate(old(buf[..n]), Reference(tok[rp + 1..]).text, Decode(tok[rp'..]));
    }
  }

  /** `lexer_decode_entities`: a buffer of `strlen + 1` bytes always suffices. */
  method DecodeEntities(tok: string) returns (buf: array<char>, n: nat)
    requires NulFree(tok)
    ensures fresh(buf) && buf.Length == |tok| + 1 && n <= |tok|
    ensures buf[..n] == Decode(tok) && buf[n] == '\0'
  {
    hide Decode, Reference, NulFree;
    buf := new char[|tok| + 1](_ => '\0');
    var rp := 0;
    n := 0;
    assert tok[0..] == tok;
    while rp < |tok|
      invariant n <= rp <= |tok|
      invariant Decode(tok) == buf[..n] + Decode(tok[rp..])
    {
      rp, n := DecodeNext(buf, n, tok, rp);
    }
    assert tok[rp..] == "";
    EmptyTexts(NoQuote);
    buf[n] := '\0';
  }
}
