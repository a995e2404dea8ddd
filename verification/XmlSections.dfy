/**
 What the token buffer holds at the end of a CDATA section
 (plparse/xmllexer.c:370-380 and 510-531): neither the start nor the end of one
 terminates the text in the buffer, so the C string there goes on with
 whatever was in it before.
 */
module XmlSections {
  import opened CText
  import opened XmlLexer
  import opened XmlLexerCode
  import opened XmlSyntaxLexing

  const START := "<![CDATA["

  predicate IsSectionText(raw: string) {
    NulFree(raw) && forall k :: 0 <= k < |raw| ==> !OccursAt(raw, "]]>", k)
  }

  /** The buffer behind a section: its text, then the rest of the start mark, and then what was there before. */
  function Left(raw: string, before: string): string
    requires |raw| <= |START + before|
  {
    raw + (START + before)[|raw|..]
  }

  lemma SectionCalls(raw: string, x: string, size: Size)
    requires IsSectionText(raw) && |raw| < size
    ensures var c := Lex(In(START + (raw + ("]]>" + x)), false, size));
            && c == Call(TCdataStart, START, Input(raw + ("]]>" + x), Cdata, false, size))
            && Lex(c.next) == Call(TCdataStop, raw, Input(x, Data, false, size))
  {
    hide Lex, OccursAt;
    var s := raw + ("]]>" + x);
    assert START + s == "<!" + ("[CDATA[" + s);
    LexDeclaration("[CDATA[", s, size);
    LexSection(raw, x, size);
  }

  /** The two calls that read a section that fits the buffer. */
  method ReadCdata(lexer: Lexer, buffer: Buffer, ghost raw: string, ghost x: string) returns (len: nat)
    requires lexer.Valid() && buffer.Valid() && IsSectionText(raw) && |raw| < buffer.size
    requires lexer.Now(buffer.size) == In(START + (raw + ("]]>" + x)), false, buffer.size)
    modifies lexer, buffer, buffer.tok
    ensures lexer.Valid() && buffer.Valid() && buffer.tok == old(buffer.tok) && len == |raw|
    ensures buffer.tok[..] == Left(raw, old(buffer.tok[9..]))
  {
    hide Lex, LeavesBuffer, OccursAt;
    ghost var before := buffer.tok[9..];
    SectionCalls(raw, x, buffer.size);
    var kind, n := lexer.GetToken(buffer);
    ghost var held := buffer.tok[..];
    assert held == START + before;
    kind, len := lexer.GetToken(buffer);
    assert buffer.tok[..] == buffer.tok[..len] + buffer.tok[len..];
    assert buffer.tok[len..] == held[len..];
  }

  lemma {:induction false} StrLenGoesOn(raw: string, rest: string)
    requires NulFree(raw)
    ensures StrLen(raw + rest) == |raw| + StrLen(rest)
  {
    if raw == "" {
      assert raw + rest == rest;
    } else {
      StrLenGoesOn(raw[1..], rest);
      assert (raw + rest)[1..] == raw[1..] + rest && (raw + rest)[0] == raw[0];
    }
  }

  lemma TextGoesOn(raw: string, rest: string)
    requires NulFree(raw)
    ensures CStr(raw + rest) == raw + CStr(rest)
  {
    StrLenGoesOn(raw, rest);
    assert (raw + rest)[..|raw| + StrLen(rest)] == raw + rest[..StrLen(rest)];
  }

  /**
   The C string that the parser appends is the section's text if and only if
   that has at least the nine characters of the start mark and an earlier
   token has left a NUL right behind it.
   */
  lemma SectionTextIff(raw: string, before: string)
    requires NulFree(raw) && |raw| < |START + before|
    ensures CStr(Left(raw, before)) == raw <==> |raw| >= 9 && before[|raw| - 9] == '\0'
  {
    var rest := (START + before)[|raw|..];
    TextGoesOn(raw, rest);
    assert rest[0] == if |raw| < 9 then START[|raw|] else before[|raw| - 9];
    assert NulFree(START);
    assert CStr(rest) == "" <==> rest[0] == '\0';
    assert raw + CStr(rest) == raw <==> CStr(rest) == "";
  }

  /** Two letters in a section come out as eleven characters and more. */
  lemma ShortSectionGoesOn(a: char, b: char, before: string)
    requires a != '\0' && b != '\0'
    ensures CStr(Left([a, b], before)) == [a, b] + "[CDATA[" + CStr(before)
  {
    assert (START + before)[2..] == "[CDATA[" + before;
    TextGoesOn([a, b], "[CDATA[" + before);
    TextGoesOn("[CDATA[", before);
  }
}
