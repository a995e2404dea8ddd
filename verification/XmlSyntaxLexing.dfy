/**
 What the lexer makes of the pieces of a written document, as long as every
 token fits its buffer; in a comment it reads on as if in a tag.
 */
module XmlSyntaxLexing {
  import opened CText
  import opened L = XmlLexer
  import opened XmlSyntax
  import opened XmlRoundTripLexing

  function In(s: string, inComment: bool, size: Size): Input {
    Input(s, Normal, inComment, size)
  }

  lemma CallIn(s: string, inComment: bool, size: Size, l: Lexed)
    requires LexNormal(s, Idle, "", inComment, size) == Ended(l)
    ensures Lex(In(s, inComment, size)) == Call(l.kind, l.raw, Input(l.rest, l.mode, l.inComment, size))
  {
    hide LexNormal;
    CallOfPass(In(s, inComment, size), l);
  }

  /** The first character of a token. */
  lemma TokenBegins(s: string, state: State, inComment: bool, size: Size)
    requires s != "" && s[0] != '\"' && s[0] != '\'' && IdleState(s[0], inComment) == state
    ensures LexNormal(s, Idle, "", inComment, size) == LexNormal(s[1..], state, [s[0]], inComment, size)
  {
    assert "" + [s[0]] == [s[0]];
  }

  // ----- white space

  predicate IsLineEnd(c: char) {
    c == '\n' || c == '\r'
  }

  function BlankState(c: char): State {
    if IsLineEnd(c) then Eol else Separ
  }

  function BlankKind(state: State): Kind {
    if state == Eol then TEol else TSepar
  }

  predicate Goes(c: char, state: State) {
    IsBlank(c) && BlankState(c) == state
  }

  lemma BlankStep(s: string, state: State, tok: string, inComment: bool)
    requires s != "" && (state == Eol || state == Separ)
    ensures NormalStep(s, state, tok, inComment) ==
            if Goes(s[0], state) then Go(state, tok + [s[0]])
            else Out(Lexed(BlankKind(state), tok, s, Normal, inComment))
  {
  }

  /** White space of one kind, up to anything else or to the end of the text. */
  lemma {:induction false} BlankRun(b: string, state: State, tok: string, x: string, inComment: bool, size: Size)
    requires (state == Eol || state == Separ) && |tok| + |b| < size
    requires (forall i :: 0 <= i < |b| ==> Goes(b[i], state)) && (x != "" ==> !Goes(x[0], state))
    ensures LexNormal(b + x, state, tok, inComment, size)
         == Ended(Lexed(if x == "" then TEof else BlankKind(state), tok + b, x, Normal, inComment))
    decreases |b|
  {
    hide NormalStep, Goes;
    if b == "" {
      assert b + x == x && tok + b == tok;
      if x != "" {
        BlankStep(x, state, tok, inComment);
      }
    } else {
      var s := b + x;
      assert s[1..] == b[1..] + x && s[0] == b[0];
      BlankStep(s, state, tok, inComment);
      BlankRun(b[1..], state, tok + [b[0]], x, inComment, size);
      assert tok + [b[0]] + b[1..] == tok + b;
    }
  }

  lemma BlankBegins(c: char, inComment: bool)
    requires IsBlank(c)
    ensures c != '\"' && c != '\'' && IdleState(c, inComment) == BlankState(c) && Goes(c, BlankState(c))
  {
  }

  lemma LexBlankRun(b: string, x: string, inComment: bool, size: Size)
    requires b != "" && |b| < size && IsBlank(b[0]) && forall i :: 0 <= i < |b| ==> Goes(b[i], BlankState(b[0]))
    requires x != "" ==> !Goes(x[0], BlankState(b[0]))
    ensures Lex(In(b + x, inComment, size))
         == Call(if x == "" then TEof else BlankKind(BlankState(b[0])), b, In(x, inComment, size))
  {
    hide LexNormal, Lex, Goes, IdleState, IsBlank;
    var s, state := b + x, BlankState(b[0]);
    assert s[1..] == b[1..] + x && s[0] == b[0];
    BlankBegins(b[0], inComment);
    TokenBegins(s, state, inComment, size);
    BlankRun(b[1..], state, [b[0]], x, inComment, size);
    assert [b[0]] + b[1..] == b;
    CallIn(s, inComment, size, Lexed(if x == "" then TEof else BlankKind(state), b, x, Normal, inComment));
  }

  // ----- words

  lemma WordStep(s: string, tok: string, inComment: bool)
    requires s != ""
    ensures IsWordChar(s[0]) ==> NormalStep(s, Ident, tok, inComment) == Go(Ident, tok + [s[0]])
    ensures EndsIdent(s[0]) ==>
              NormalStep(s, Ident, tok, inComment) == Out(Lexed(TIdent, tok, s, Normal, inComment))
    ensures s[0] == '-' ==> NormalStep(s, Ident, tok, inComment) == Go(DashDash, tok + "-")
  {
  }

  /** The characters of a word, one after the other. */
  lemma {:induction false} WordRun(w: string, tok: string, x: string, inComment: bool, size: Size)
    requires |tok| + |w| < size && forall i :: 0 <= i < |w| ==> IsWordChar(w[i])
    ensures LexNormal(w + x, Ident, tok, inComment, size) == LexNormal(x, Ident, tok + w, inComment, size)
    decreases |w|
  {
    hide NormalStep, IsWordChar;
    if w == "" {
      assert w + x == x && tok + w == tok;
    } else {
      var s := w + x;
      assert s[1..] == w[1..] + x && s[0] == w[0];
      WordStep(s, tok, inComment);
      WordRun(w[1..], tok + [w[0]], x, inComment, size);
      assert tok + [w[0]] + w[1..] == tok + w;
    }
  }

  lemma WordBegins(c: char, inComment: bool)
    requires IsWordChar(c)
    ensures c != '\"' && c != '\'' && IdleState(c, inComment) == Ident
  {
  }

  lemma WordEnds(x: string, tok: string, inComment: bool, size: Size)
    requires x != "" && EndsIdent(x[0]) && |tok| < size
    ensures LexNormal(x, Ident, tok, inComment, size) == Ended(Lexed(TIdent, tok, x, Normal, inComment))
  {
    hide NormalStep, EndsIdent;
    WordStep(x, tok, inComment);
  }

  lemma WordToEnd(w: string, x: string, inComment: bool, size: Size)
    requires w != "" && |w| < size && forall i :: 0 <= i < |w| ==> IsWordChar(w[i])
    ensures LexNormal(w + x, Idle, "", inComment, size) == LexNormal(x, Ident, w, inComment, size)
  {
    hide LexNormal, IsWordChar, IdleState;
    var s := w + x;
    assert s[1..] == w[1..] + x && s[0] == w[0];
    WordBegins(w[0], inComment);
    TokenBegins(s, Ident, inComment, size);
    WordRun(w[1..], [w[0]], x, inComment, size);
    assert [w[0]] + w[1..] == w;
  }

  lemma LexWord(w: string, x: string, inComment: bool, size: Size)
    requires w != "" && |w| < size && forall i :: 0 <= i < |w| ==> IsWordChar(w[i])
    requires x != "" && EndsIdent(x[0])
    ensures Lex(In(w + x, inComment, size)) == Call(TIdent, w, In(x, inComment, size))
  {
    hide LexNormal, Lex, IsWordChar, EndsIdent;
    WordToEnd(w, x, inComment, size);
    WordEnds(x, w, inComment, size);
    CallIn(w + x, inComment, size, Lexed(TIdent, w, x, Normal, inComment));
  }

  lemma DashStep(s: string, tok: string, inComment: bool)
    requires s != "" && s[0] == '-'
    ensures NormalStep(s, DashDash, tok, inComment) == Go(CStop, tok + ['-'])
  {
  }

  lemma DashesAtEnd(w: string, x: string, inComment: bool, size: Size)
    requires |w| + 3 < size
    ensures LexNormal("-->" + x, Ident, w, inComment, size) == LexNormal(">" + x, CStop, w + "--", inComment, size)
  {
    var s1, s2 := "-->" + x, "->" + x;
    assert s1[1..] == s2 && s2[1..] == ">" + x && s1[0] == '-' && s2[0] == '-';
    WordStep(s1, w, inComment);
    assert w + "-" + ['-'] == w + "--";
    hide NormalStep;
    assert NormalStep(s2, DashDash, w + "-", inComment) == Go(CStop, w + "--") by { DashStep(s2, w + "-", inComment); }
  }

  lemma LongerThanClose(w: string)
    requires w != "" && NulFree(w)
    ensures StrLen(w + "--" + ">") != 3
  {
    StrLenOfNulFree(w + "--" + ">");
  }

  lemma WordIsNulFree(w: string)
    requires forall i :: 0 <= i < |w| ==> IsWordChar(w[i])
    ensures NulFree(w)
  {
  }

  lemma EndGivenBack(w: string, x: string, size: Size)
    requires |w| + 3 < size && StrLen(w + "--" + ">") != 3
    ensures LexNormal(">" + x, CStop, w + "--", true, size) == Ended(Lexed(TIdent, w, "-->" + x, Normal, true))
  {
    hide StrLen;
    var s := ">" + x;
    assert s[0] == '>' && s[1..] == x;
    assert (w + "--")[..|w|] == w;
  }

  /** The end mark of a comment right behind a word is given back. */
  lemma LexLastWord(w: string, x: string, size: Size)
    requires w != "" && |w| + 3 < size && forall i :: 0 <= i < |w| ==> IsWordChar(w[i])
    ensures Lex(In(w + ("-->" + x), true, size)) == Call(TIdent, w, In("-->" + x, true, size))
  {
    hide LexNormal, Lex, IsWordChar;
    WordToEnd(w, "-->" + x, true, size);
    DashesAtEnd(w, x, true, size);
    WordIsNulFree(w);
    LongerThanClose(w);
    EndGivenBack(w, x, size);
    CallIn(w + ("-->" + x), true, size, Lexed(TIdent, w, "-->" + x, Normal, true));
  }

  // ----- quoted strings

  lemma QuoteStep(s: string, q: char, tok: string, inComment: bool)
    requires s != "" && (q == '\'' || q == '\"')
    ensures NormalStep(s, QuoteState(q), tok, inComment) ==
            if s[0] == q then Out(Lexed(TString, tok, s[1..], Normal, inComment))
            else Go(QuoteState(q), tok + [s[0]])
  {
  }

  lemma {:induction false} QuotedRun(v: string, q: char, tok: string, x: string, inComment: bool, size: Size)
    requires (q == '\'' || q == '\"') && q !in v && |tok| + |v| < size
    ensures LexNormal(v + ([q] + x), QuoteState(q), tok, inComment, size)
         == Ended(Lexed(TString, tok + v, x, Normal, inComment))
    decreases |v|
  {
    hide NormalStep;
    var s := v + ([q] + x);
    QuoteStep(s, q, tok, inComment);
    if v == "" {
      assert s == [q] + x && tok + v == tok;
      assert s[1..] == x;
    } else {
      assert s[1..] == v[1..] + ([q] + x) && s[0] == v[0];
      QuotedRun(v[1..], q, tok + [v[0]], x, inComment, size);
      assert tok + [v[0]] + v[1..] == tok + v;
    }
  }

  lemma QuoteBegins(s: string, q: char, inComment: bool, size: Size)
    requires s != "" && s[0] == q && (q == '\'' || q == '\"')
    ensures LexNormal(s, Idle, "", inComment, size) == LexNormal(s[1..], QuoteState(q), "", inComment, size)
  {
  }

  lemma LexQuoted(v: string, q: char, x: string, inComment: bool, size: Size)
    requires (q == '\'' || q == '\"') && q !in v && |v| < size
    ensures Lex(In([q] + (v + ([q] + x)), inComment, size)) == Call(TString, v, In(x, inComment, size))
  {
    hide LexNormal, Lex;
    var s := [q] + (v + ([q] + x));
    assert s[1..] == v + ([q] + x) && s[0] == q;
    QuotedRun(v, q, "", x, inComment, size);
    assert "" + v == v;
    QuoteBegins(s, q, inComment, size);
    CallIn(s, inComment, size, Lexed(TString, v, x, Normal, inComment));
  }

  // ----- marks of two and more characters

  lemma EndMarkEnds(first: char, x: string, size: Size)
    requires first == '/' || first == '?'
    ensures LexNormal(">" + x, if first == '/' then MStop2 else TiStop, [first], false, size)
         == Ended(Lexed(if first == '/' then TMStop2 else TTiStop, [first] + ">", x, Data, false))
  {
    assert (">" + x)[1..] == x;
  }

  /** A mark whose two characters are `first` and `>`. */
  lemma LexEndMark(first: char, x: string, size: Size)
    requires first == '/' || first == '?'
    ensures Lex(In([first] + (">" + x), false, size))
         == Call(if first == '/' then TMStop2 else TTiStop, [first] + ">", Input(x, Data, false, size))
  {
    hide LexNormal, Lex;
    var s := [first] + (">" + x);
    var state := if first == '/' then MStop2 else TiStop;
    assert s[1..] == ">" + x && s[0] == first;
    TokenBegins(s, state, false, size);
    EndMarkEnds(first, x, size);
    CallIn(s, false, size, Lexed(if first == '/' then TMStop2 else TTiStop, [first] + ">", x, Data, false));
  }

  lemma TiStartEnds(x: string, size: Size)
    ensures LexNormal("?" + x, MStart, "<", false, size) == Ended(Lexed(TTiStart, "<?", x, Normal, false))
  {
    assert ("?" + x)[1..] == x && ("?" + x)[0] == '?';
  }

  lemma LexTiStart(x: string, size: Size)
    ensures Lex(In("<?" + x, false, size)) == Call(TTiStart, "<?", In(x, false, size))
  {
    hide LexNormal, Lex;
    var s := "<?" + x;
    assert s[1..] == "?" + x && s[0] == '<';
    TokenBegins(s, MStart, false, size);
    assert LexNormal("?" + x, MStart, "<", false, size) == Ended(Lexed(TTiStart, "<?", x, Normal, false)) by {
      TiStartEnds(x, size);
    }
    CallIn(s, false, size, Lexed(TTiStart, "<?", x, Normal, false));
  }

  lemma BangTaken(s: string, x: string, size: Size)
    requires s == "!" + x
    ensures LexNormal(s, MStart, "<", false, size) == LexNormal(x, State.Comment, "<!", false, size)
  {
    assert s[0] == '!' && s[1..] == x;
    assert MStartStep(s, "<", false) == Go(State.Comment, "<!");
  }

  lemma DeclarationBegins(x: string, size: Size)
    ensures LexNormal("<!" + x, Idle, "", false, size) == LexNormal(x, State.Comment, "<!", false, size)
  {
    hide LexNormal;
    var s := "<!" + x;
    assert s[1..] == "!" + x && s[0] == '<';
    TokenBegins(s, MStart, false, size);
    BangTaken("!" + x, x, size);
  }

  /** What `<!` goes on as. */
  function Declared(mark: string, x: string): Lexed {
    if mark == "--" then Lexed(TCStart, "<!--", x, Normal, true)
    else if mark == "DOCTYPE" then Lexed(TDoctypeStart, "<!DOCTYPE", x, Normal, false)
    else Lexed(TCdataStart, "<![CDATA[", x, Cdata, false)
  }

  lemma MarkParts(mark: string, x: string)
    requires mark == "--" || mark == "DOCTYPE" || mark == "[CDATA["
    ensures var (s, t) := (mark + x, (mark + x)[1..]);
            s != "" && s[0] == mark[0] && mark[1..] <= t && t[|mark| - 1..] == x
    ensures mark[1..] == if mark == "--" then "-" else if mark == "DOCTYPE" then "OCTYPE" else "CDATA["
  {
    assert (mark + x)[1..] == mark[1..] + x;
  }

  lemma DeclarationStep(mark: string, x: string)
    requires mark == "--" || mark == "DOCTYPE" || mark == "[CDATA["
    ensures mark + x != "" && CommentStep(mark + x, "<!", false) == Out(Declared(mark, x))
  {
    MarkParts(mark, x);
  }

  lemma DeclarationEnds(mark: string, x: string, size: Size)
    requires mark == "--" || mark == "DOCTYPE" || mark == "[CDATA["
    ensures LexNormal(mark + x, State.Comment, "<!", false, size) == Ended(Declared(mark, x))
  {
    hide CommentStep, Declared;
    DeclarationStep(mark, x);
  }

  lemma LexDeclaration(mark: string, x: string, size: Size)
    requires mark == "--" || mark == "DOCTYPE" || mark == "[CDATA["
    ensures Lex(In("<!" + (mark + x), false, size)) ==
            if mark == "--" then Call(TCStart, "<!--", In(x, true, size))
            else if mark == "DOCTYPE" then Call(TDoctypeStart, "<!DOCTYPE", In(x, false, size))
            else Call(TCdataStart, "<![CDATA[", Input(x, Cdata, false, size))
  {
    hide LexNormal, Lex;
    DeclarationBegins(mark + x, size);
    DeclarationEnds(mark, x, size);
    CallIn("<!" + (mark + x), false, size, Declared(mark, x));
  }

  lemma CloseEnds(x: string, size: Size)
    ensures LexNormal(">" + x, CStop, "--", true, size) == Ended(Lexed(TCStop, "-->", x, Normal, false))
  {
    assert (">" + x)[1..] == x;
    assert "--" + ">" == "-->";
    StrLenOfNulFree("-->");
  }

  lemma TwoDashesFirst(x: string, size: Size)
    ensures LexNormal("-" + x, DashDash, "-", true, size) == LexNormal(x, CStop, "--", true, size)
  {
    assert ("-" + x)[1..] == x;
    assert "-" + ['-'] == "--";
  }

  /** The end mark of a comment by itself. */
  lemma LexCommentEnd(x: string, size: Size)
    ensures Lex(In("-->" + x, true, size)) == Call(TCStop, "-->", In(x, false, size))
  {
    hide LexNormal, Lex;
    var s := "-->" + x;
    assert s[1..] == "-" + (">" + x) && s[0] == '-';
    TokenBegins(s, DashDash, true, size);
    TwoDashesFirst(">" + x, size);
    CloseEnds(x, size);
    CallIn(s, true, size, Lexed(TCStop, "-->", x, Normal, false));
  }

  // ----- CDATA sections

  lemma EndIsAtEnd(raw: string, x: string)
    requires raw != "" && forall k :: 0 <= k < |raw| ==> !OccursAt(raw, "]]>", k)
    ensures !("]]>" <= raw + ("]]>" + x))
    ensures forall k :: 0 <= k < |raw| - 1 ==> !OccursAt(raw[1..], "]]>", k)
  {
    var s := raw + ("]]>" + x);
    assert !OccursAt(raw, "]]>", 0) && (|raw| >= 3 ==> raw[0..3] == s[..3]);
    assert |raw| == 1 ==> s[2] == ']';
    assert |raw| == 2 ==> s[2] == ']';
    forall k | 0 <= k < |raw| - 1
      ensures !OccursAt(raw[1..], "]]>", k)
    {
      if OccursAt(raw[1..], "]]>", k) {
        assert raw[1..][k..k + 3] == raw[k + 1..k + 4];
        assert OccursAt(raw, "]]>", k + 1);
      }
    }
  }

  lemma {:induction false} SectionRun(raw: string, tok: string, x: string, size: Size)
    requires |tok| + |raw| < size && forall k :: 0 <= k < |raw| ==> !OccursAt(raw, "]]>", k)
    ensures LexCdata(raw + ("]]>" + x), tok, false, size) == Ended(Lexed(TCdataStop, tok + raw, x, Data, false))
    decreases |raw|
  {
    hide OccursAt;
    var s := raw + ("]]>" + x);
    if raw == "" {
      assert s == "]]>" + x && s[3..] == x && tok + raw == tok;
      assert "]]>" <= s;
    } else {
      EndIsAtEnd(raw, x);
      assert s[1..] == raw[1..] + ("]]>" + x) && s[0] == raw[0];
      SectionRun(raw[1..], tok + [raw[0]], x, size);
      assert tok + [raw[0]] + raw[1..] == tok + raw;
    }
  }

  lemma LexSection(raw: string, x: string, size: Size)
    requires |raw| < size && forall k :: 0 <= k < |raw| ==> !OccursAt(raw, "]]>", k)
    ensures Lex(Input(raw + ("]]>" + x), Cdata, false, size)) == Call(TCdataStop, raw, Input(x, Data, false, size))
  {
    hide LexCdata, Lex, OccursAt;
    SectionRun(raw, "", x, size);
    assert "" + raw == raw;
    CallOfPass(Input(raw + ("]]>" + x), Cdata, false, size), Lexed(TCdataStop, raw, x, Data, false));
  }

  // ----- what ends a name

  const NAME_ENDS := "<>\\\" \t\n\r=/"

  /** Angle brackets, a backslash, a double quote, white space, an equals sign and a slash end a word. */
  lemma LexWordBefore(w: string, c: char, x: string, inComment: bool, size: Size)
    requires w != "" && |w| < size && (forall i :: 0 <= i < |w| ==> IsWordChar(w[i])) && c in NAME_ENDS
    ensures Lex(In(w + ([c] + x), inComment, size)) == Call(TIdent, w, In([c] + x, inComment, size))
  {
    hide Lex, IsWordChar;
    LexWord(w, [c] + x, inComment, size);
  }

  lemma MarkBehindWord(w: string, x: string, inComment: bool, size: Size)
    requires |w| + 1 < size
    ensures LexNormal("?>" + x, Ident, w, inComment, size)
         == Ended(Lexed(TTiStop, w + "?>", x, if inComment then Normal else Data, inComment))
  {
    var s := "?>" + x;
    assert s[0] == '?' && s[1..] == ">" + x && (">" + x)[1..] == x;
    assert w + "?" + ">" == w + "?>";
  }

  /** A `?>` right behind a word is part of the token, in a comment too. */
  lemma LexWordWithMark(w: string, x: string, inComment: bool, size: Size)
    requires w != "" && |w| + 1 < size && forall k :: 0 <= k < |w| ==> IsWordChar(w[k])
    ensures Lex(In(w + ("?>" + x), inComment, size))
         == Call(TTiStop, w + "?>", Input(x, if inComment then Normal else Data, inComment, size))
  {
    hide LexNormal, Lex, IsWordChar;
    WordToEnd(w, "?>" + x, inComment, size);
    MarkBehindWord(w, x, inComment, size);
    CallIn(w + ("?>" + x), inComment, size,
        Lexed(TTiStop, w + "?>", x, if inComment then Normal else Data, inComment));
  }

  // ----- marks inside a comment

  lemma TagEndEnds(x: string, size: Size)
    ensures LexNormal(x, MStop1, ">", true, size) == Ended(Lexed(TMStop1, ">", x, Normal, true))
  {
  }

  /** A tag's end does not start character data there. */
  lemma TagEndInComment(x: string, size: Size)
    ensures Lex(In(">" + x, true, size)) == Call(TMStop1, ">", In(x, true, size))
  {
    hide Lex, LexNormal;
    assert (">" + x)[1..] == x;
    TokenBegins(">" + x, MStop1, true, size);
    TagEndEnds(x, size);
    CallIn(">" + x, true, size, Lexed(TMStop1, ">", x, Normal, true));
  }

  /** Slashes and question marks begin the next token. */
  lemma MarksInComment(c: char, x: string, tok: string, size: Size)
    requires (c == '/' || c == '?') && |tok| < size
    ensures LexNormal([c] + x, Idle, tok, true, size) == LexNormal(x, Idle, tok + [c], true, size)
  {
    assert ([c] + x)[1..] == x;
  }

  lemma ThirdDash(x: string, size: Size)
    ensures LexNormal("->" + x, CStop, "--", true, size) == Ended(Lexed(TIdent, "---", ">" + x, Normal, true))
  {
    hide StrLen;
    assert ("->" + x)[1..] == ">" + x && "--" + ['-'] == "---";
  }

  /** Three dashes are a word, and the `>` behind them does not end the comment. */
  lemma LexThreeDashes(x: string, size: Size)
    ensures Lex(In("--->" + x, true, size)) == Call(TIdent, "---", In(">" + x, true, size))
  {
    hide LexNormal, Lex;
    var s := "--->" + x;
    assert s[1..] == "-" + ("->" + x) && s[0] == '-';
    TokenBegins(s, DashDash, true, size);
    TwoDashesFirst("->" + x, size);
    ThirdDash(x, size);
    CallIn(s, true, size, Lexed(TIdent, "---", ">" + x, Normal, true));
  }

  // ----- tokens cut off by the end of the text

  lemma NoneLeft(state: State, tok: string, size: Size)
    requires |tok| < size
    ensures LexNormal("", state, tok, false, size) == Ended(Lexed(KindAtEnd(state), tok, "", Normal, false))
  {
  }

  lemma {:induction false} StringToEnd(v: string, q: char, tok: string, size: Size)
    requires (q == '\'' || q == '\"') && q !in v && |tok| + |v| < size
    ensures LexNormal(v, QuoteState(q), tok, false, size) == Ended(Lexed(TString, tok + v, "", Normal, false))
    decreases |v|
  {
    hide NormalStep;
    if v == "" {
      assert tok + v == tok;
    } else {
      QuoteStep(v, q, tok, false);
      StringToEnd(v[1..], q, tok + [v[0]], size);
      assert tok + [v[0]] + v[1..] == tok + v;
    }
  }

  lemma CutOffString(w: string, q: char, size: Size)
    requires (q == '\'' || q == '\"') && |w| < size && forall i :: 0 <= i < |w| ==> IsWordChar(w[i])
    ensures Lex(In([q] + w, false, size)) == Call(TString, w, In("", false, size))
  {
    hide LexNormal, Lex;
    var s := [q] + w;
    assert s[1..] == w && "" + w == w;
    QuoteBegins(s, q, false, size);
    StringToEnd(w, q, "", size);
    CallIn(s, false, size, Lexed(TString, w, "", Normal, false));
  }

  lemma HalfMark(w: string, size: Size)
    requires |w| + 1 < size
    ensures LexNormal("-", Ident, w, false, size) == Ended(Lexed(TError, w + "-", "", Normal, false))
    ensures LexNormal("?", Ident, w, false, size) == Ended(Lexed(TError, w + "?", "", Normal, false))
  {
    assert "-"[1..] == "" && "?"[1..] == "";
    NoneLeft(DashDash, w + "-", size);
    NoneLeft(TiStop, w + "?", size);
  }

  lemma TwoDashes(w: string, size: Size)
    requires |w| + 2 < size
    ensures LexNormal("--", Ident, w, false, size) == Ended(Lexed(TError, w + "--", "", Normal, false))
  {
    assert "--"[1..] == "-" && "-"[1..] == "" && w + "-" + ['-'] == w + "--";
    NoneLeft(CStop, w + "--", size);
  }

  /** A word becomes data there, an open string is returned, and half a mark is an error. */
  lemma CutOffWord(w: string, size: Size)
    requires w != "" && |w| < size && forall i :: 0 <= i < |w| ==> IsWordChar(w[i])
    ensures Lex(In(w, false, size)) == Call(TData, w, In("", false, size))
    ensures Lex(In("'" + w, false, size)) == Call(TString, w, In("", false, size))
    ensures Lex(In("\"" + w, false, size)) == Call(TString, w, In("", false, size))
    ensures |w| + 1 < size ==> Lex(In(w + "-", false, size)).kind == TError
    ensures |w| + 1 < size ==> Lex(In(w + "?", false, size)).kind == TError
    ensures |w| + 2 < size ==> Lex(In(w + "--", false, size)).kind == TError
  {
    hide LexNormal, Lex, IsWordChar;
    assert w + "" == w;
    WordToEnd(w, "", false, size);
    NoneLeft(Ident, w, size);
    CallIn(w, false, size, Lexed(TData, w, "", Normal, false));
    CutOffString(w, '\'', size);
    CutOffString(w, '\"', size);
    if |w| + 1 < size {
      WordToEnd(w, "-", false, size);
      WordToEnd(w, "?", false, size);
      HalfMark(w, size);
      CallIn(w + "-", false, size, Lexed(TError, w + "-", "", Normal, false));
      CallIn(w + "?", false, size, Lexed(TError, w + "?", "", Normal, false));
    }
    if |w| + 2 < size {
      WordToEnd(w, "--", false, size);
      TwoDashes(w, size);
      CallIn(w + "--", false, size, Lexed(TError, w + "--", "", Normal, false));
    }
  }

  lemma CutOffMark(s: string, state: State, size: Size)
    requires |s| == 1 && s[0] != '\"' && s[0] != '\'' && IdleState(s[0], false) == state
    ensures Lex(In(s, false, size)) == Call(KindAtEnd(state), s, In("", false, size))
  {
    hide LexNormal, Lex, IdleState;
    assert s[1..] == "" && [s[0]] == s;
    TokenBegins(s, state, false, size);
    NoneLeft(state, s, size);
    CallIn(s, false, size, Lexed(KindAtEnd(state), s, "", Normal, false));
  }

  lemma StatesOfMarks()
    ensures IdleState('<', false) == MStart && IdleState('>', false) == MStop1 && IdleState('=', false) == Equal
    ensures IdleState('/', false) == MStop2 && IdleState('?', false) == TiStop && IdleState('-', false) == DashDash
    ensures IdleState(' ', false) == Separ && IdleState('\n', false) == Eol
  {
  }

  /** Marks of one character are returned. */
  lemma CutOffMarks(size: Size)
    ensures Lex(In("<", false, size)).kind == TMStart1 && Lex(In(">", false, size)).kind == TMStop1
    ensures Lex(In("=", false, size)).kind == TEqual
  {
    hide Lex, IdleState;
    StatesOfMarks();
    CutOffMark("<", MStart, size);
    CutOffMark(">", MStop1, size);
    CutOffMark("=", Equal, size);
  }

  /** The first character of a longer mark is an error, and white space is no token. */
  lemma CutOffStarts(size: Size)
    ensures Lex(In("/", false, size)).kind == TError && Lex(In("?", false, size)).kind == TError
    ensures Lex(In("-", false, size)).kind == TError
    ensures Lex(In(" ", false, size)).kind == TEof && Lex(In("\n", false, size)).kind == TEof
  {
    hide Lex, IdleState;
    StatesOfMarks();
    CutOffMark("/", MStop2, size);
    CutOffMark("?", TiStop, size);
    CutOffMark("-", DashDash, size);
    CutOffMark(" ", Separ, size);
    CutOffMark("\n", Eol, size);
  }

  predicate Fails(step: Step) {
    step.Out? && step.lexed.kind == TError
  }

  /** Inside a text, a step fails only behind half a mark and behind `<!`. */
  lemma StepFailsIff(s: string, state: State, tok: string, inComment: bool)
    requires s != ""
    ensures Fails(NormalStep(s, state, tok, inComment)) <==>
            || ((state == MStop2 || state == TiStop) && s[0] != '>')
            || (state == State.Comment && s[0] != '-' && !("DOCTYPE" <= s) && !("[CDATA[" <= s))
  {
    hide StrLen, EndsIdent;
    AfterFirst(s, "DOCTYPE");
    AfterFirst(s, "[CDATA[");
    assert "DOCTYPE"[1..] == "OCTYPE" && "[CDATA["[1..] == "CDATA[";
  }
}
