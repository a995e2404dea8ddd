/**
 The parse that the playlist handlers use, `idol_pl_parser_parse_xml_relaxed`
 (plparse/idol-pl-parser.c:1660-1708), before any change of encoding: comments
 are blanked, and the result is parsed without regard to case, with relaxed
 close tags and with text nodes.
 */
module XmlRelaxed {
  import opened CText
  import opened CommentBlanker
  import opened L = XmlLexer
  import opened XmlBuilder
  import opened XmlMachine
  import opened XmlRoot

  const CONFIG := Config(true, true, true)

  function ParseRelaxed(text: string): Outcome {
    ParseDocument(CONFIG, Cleaned(text))
  }

  ghost predicate EndsAt(s: string, i: int, j: int) {
    IsClose(s, j) && !HasCdataEnd(s, i, j) && forall k :: i <= k < j ==> !IsClose(s, k)
  }

  /** The comment at `i` ends, and there is no `]]>` in it. */
  ghost predicate IsWhole(s: string, i: int) {
    exists j :: i <= j && EndsAt(s, i, j)
  }

  predicate IsBracket(s: string, i: nat) {
    i + 2 < |s| && s[i + 2] == '['
  }

  /** Every `<!` is a `<!--` or a `<![`, and every `<!--` starts a comment that ends, without a `]]>` in it. */
  ghost predicate OnlyWholeComments(s: string) {
    && (forall i :: 0 <= i < |s| - 1 && s[i] == '<' && s[i + 1] == '!' ==> IsOpen(s, i) || IsBracket(s, i))
    && (forall i :: IsOpen(s, i) ==> IsWhole(s, i))
  }

  lemma WholeShifts(s: string, k: nat, i: nat)
    requires k <= |s| && IsWhole(s, k + i)
    ensures IsWhole(s[k..], i)
  {
    var t := s[k..];
    var j :| k + i <= j && EndsAt(s, k + i, j);
    assert IsClose(t, j - k);
    if HasCdataEnd(t, i, j - k) {
      CdataEndShifts(s, k, i, j - k);
    }
    assert forall n :: i <= n < j - k && IsClose(t, n) ==> IsClose(s, k + n);
    assert EndsAt(t, i, j - k);
  }

  lemma SuffixHasWholeComments(s: string, k: nat)
    requires OnlyWholeComments(s) && k <= |s|
    ensures OnlyWholeComments(s[k..])
  {
    hide IsWhole;
    var t := s[k..];
    forall i | IsOpen(t, i)
      ensures IsWhole(t, i)
    {
      assert IsOpen(s, k + i);
      WholeShifts(s, k, i);
    }
    forall i | 0 <= i < |t| - 1 && t[i] == '<' && t[i + 1] == '!'
      ensures IsOpen(t, i) || IsBracket(t, i)
    {
      assert IsOpen(s, k + i) || IsBracket(s, k + i);
    }
  }

  lemma NothingOpensBefore(s: string, at: nat)
    requires OnlyWholeComments(s) && at <= |s| && forall j :: 0 <= j < at ==> !IsOpen(s, j)
    ensures Undeclared(s[..at])
  {
    hide IsWhole;
    var t := s[..at];
    forall i | 0 <= i < |t| - 2 && t[i] == '<' && t[i + 1] == '!'
      ensures !Declares(t[i + 2])
    {
      assert IsBracket(s, i);
    }
  }

  lemma WholeEnds(s: string, i: int)
    ensures IsWhole(s, i) ==> exists j :: i <= j && IsClose(s, j)
  {
  }

  lemma WithoutCommentsUndeclared(s: string)
    requires OnlyWholeComments(s) && NextRound(s) == Stop
    ensures Undeclared(s)
  {
    hide NextRound, IsWhole;
    RoundIsFirst(s);
    forall i
      ensures !IsOpen(s, i)
    {
      WholeEnds(s, i);
    }
    NothingOpensBefore(s, |s|);
    assert s[..|s|] == s;
  }

  lemma WholeEndsFirst(s: string, i: int, close: int)
    requires i <= close && IsClose(s, close) && forall j :: i <= j < close ==> !IsClose(s, j)
    ensures IsWhole(s, i) ==> !HasCdataEnd(s, i, close)
  {
    hide HasCdataEnd;
    if IsWhole(s, i) {
      var j :| i <= j && EndsAt(s, i, j);
      assert j == close;
    }
  }

  /** A whole comment is not skipped. */
  lemma NoSkip(s: string)
    requires OnlyWholeComments(s)
    ensures !NextRound(s).Skip?
  {
    hide NextRound, HasCdataEnd, IsWhole;
    RoundIsFirst(s);
    if NextRound(s).Skip? {
      WholeEndsFirst(s, NextRound(s).at, NextRound(s).close);
    }
  }

  lemma BlankedUndeclared(front: string, n: nat, rest: string)
    requires Undeclared(front) && n > 0 && Undeclared(rest)
    ensures Undeclared(front + Blanks(n) + rest)
  {
  }

  /** Blanking removes every `<!--`. */
  lemma {:induction false} CleanedIsUndeclared(s: string)
    requires OnlyWholeComments(s)
    ensures Undeclared(Cleaned(s))
    decreases |s|
  {
    hide NextRound, Cleaned, HasCdataEnd, OnlyWholeComments, Undeclared, Blanks;
    NoSkip(s);
    match NextRound(s)
    case Stop =>
      CleanedStops(s);
      WithoutCommentsUndeclared(s);
    case Blank(at, close) =>
      CleanedBlanks(s, at, close);
      SuffixHasWholeComments(s, close + 3);
      CleanedIsUndeclared(s[close + 3..]);
      NothingOpensBefore(s, at);
      BlankedUndeclared(s[..at], close + 3 - at, Cleaned(s[close + 3..]));
  }

  /** Whole comments, wherever they stand, and CDATA sections never keep the parse from ending. */
  lemma WholeCommentsDoNotHang(text: string)
    requires OnlyWholeComments(text)
    ensures !ParseRelaxed(text).Unended?
  {
    hide Cleaned, ParseDocument, TokensOf, Undeclared, OnlyWholeComments, NeverReturns;
    CleanedIsUndeclared(text);
    NoDeclarationNoHang(CONFIG, Cleaned(text));
    UnendedNeverReturns(CONFIG, Cleaned(text));
  }

  /** Some token of the text starts a comment or document type between tags, and no later one ends it. */
  ghost predicate LeavesSkipOpen(cfg: Config, text: string) {
    exists i :: 0 <= i < |TokensOf(text)| && LeavesOpen(cfg, TokensOf(text), i)
  }

  lemma DocumentHangsIff(cfg: Config, text: string)
    ensures ParseDocument(cfg, text) == Unended <==> LeavesSkipOpen(cfg, text)
  {
    hide ParseDocument, TokensOf, LeavesOpen, NeverReturns;
    UnendedNeverReturns(cfg, text);
    ParseHangsExactlyInOpenSkips(cfg, TokensOf(text));
  }

  /** The relaxed parse does not return exactly when the text, with its comments blanked, leaves one open. */
  lemma RelaxedHangsIff(text: string)
    ensures ParseRelaxed(text) == Unended <==> LeavesSkipOpen(CONFIG, Cleaned(text))
  {
    hide ParseDocument, LeavesSkipOpen, Cleaned;
    DocumentHangsIff(CONFIG, Cleaned(text));
  }

  lemma NothingToClean()
    ensures Cleaned("<!--") == "<!--"
  {
    hide NextRound, Cleaned;
    RoundIsFirst("<!--");
    match NextRound("<!--")
    case Stop => CleanedStops("<!--");
    case Skip(at, close) => RoundBounds("<!--", at, close);
    case Blank(at, close) => RoundBounds("<!--", at, close);
  }

  /** A comment without an end is not blanked, and the parse does not end. */
  lemma OpenCommentNeverEnds()
    ensures ParseRelaxed("<!--") == Unended
  {
    hide ParseDocument, TokensOf, NeverReturns;
    OpenCommentHangs(CONFIG);
    UnendedNeverReturns(CONFIG, "<!--");
    NothingToClean();
  }
}
