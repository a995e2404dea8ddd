/**
 What one call of the lexer can take from a printed text, from wherever in it
 the call begins: behind a token that did not fit the buffer, that can be the
 middle of a name or of a value.

 A mark is a place where the text of a tag or of a property starts: a `<` that
 begins a start tag, or the equals sign in front of a quote that opens a value.
 */
module XmlMarks {
  import opened CText
  import opened L = XmlLexer
  import Entities

  // ----- counting characters and marks

  function Count(c: char, s: string): nat {
    if s == "" then 0 else (if s[0] == c then 1 else 0) + Count(c, s[1..])
  }

  /** What is left of a text with an even number of quotes begins outside a value, or with the quote that opens one. */
  predicate Even(s: string) {
    Count('\'', s) % 2 == 0
  }

  predicate OpensValue(s: string) {
    s != "" && s[0] == '\'' && Even(s)
  }

  predicate IsMark(t: string) {
    t != "" && ((t[0] == '<' && !(|t| > 1 && t[1] == '/')) || (t[0] == '=' && OpensValue(t[1..])))
  }

  function Marks(t: string): nat {
    if t == "" then 0 else (if IsMark(t) then 1 else 0) + Marks(t[1..])
  }

  lemma {:induction false} CountConcat(c: char, a: string, b: string)
    ensures Count(c, a + b) == Count(c, a) + Count(c, b)
  {
    if a == "" {
      assert a + b == b;
    } else {
      assert (a + b)[1..] == a[1..] + b;
      CountConcat(c, a[1..], b);
    }
  }

  lemma {:induction false} CountZero(c: char, s: string)
    requires c !in s
    ensures Count(c, s) == 0
  {
    if s != "" {
      CountZero(c, s[1..]);
    }
  }

  // ----- printed texts

  /** The escaped form of the character `c`, which is a reference, begins `t`. */
  predicate StartsRef(c: char, t: string) {
    c != '\0' && var e := Entities.EscapeChar(c, Entities.SingleQuote); |e| > 1 && e <= t
  }

  ghost predicate RefAt(t: string) {
    exists c :: StartsRef(c, t)
  }

  /**
   What holds of every place in a printed text: nothing ends but start and
   close tags, every tag has a name, quotes open only behind an equals sign,
   and an ampersand starts a reference that the escaper writes.
   */
  ghost predicate TameAt(t: string)
    requires t != ""
  {
    && (t[0] in "-/?" ==> |t| == 1 || t[1] != '>')
    && (t[0] == '<' ==> |t| > 1 && t[1] !in "!?")
    && (OpensValue(t[1..]) ==> t[0] == '=')
    && (t[0] == '&' ==> RefAt(t))
    && t[0] != '\0'
  }

  ghost predicate Tame(t: string) {
    t != "" ==> TameAt(t) && Tame(t[1..])
  }

  predicate IsSuffix(s: string, t: string) {
    |s| <= |t| && s == t[|t| - |s|..]
  }

  lemma {:induction false} SuffixOf(s: string, t: string)
    requires IsSuffix(s, t)
    ensures Marks(s) <= Marks(t) && (Tame(t) ==> Tame(s))
    decreases |t|
  {
    hide IsMark, TameAt;
    if |s| == |t| {
      assert s == t;
    } else {
      assert s == t[1..][|t[1..]| - |s|..];
      SuffixOf(s, t[1..]);
    }
  }

  lemma {:induction false} SuffixCounts(c: char, s: string, t: string)
    requires IsSuffix(s, t)
    ensures Count(c, s) <= Count(c, t)
    decreases |t|
  {
    if |s| == |t| {
      assert s == t;
    } else {
      assert s == t[1..][|t[1..]| - |s|..];
      SuffixCounts(c, s, t[1..]);
    }
  }

  lemma SuffixTransitive(r: string, s: string, t: string)
    requires IsSuffix(r, s) && IsSuffix(s, t)
    ensures IsSuffix(r, t)
  {
  }

  lemma {:induction false} TameNulFree(t: string)
    requires Tame(t)
    ensures NulFree(t)
  {
    hide OpensValue, RefAt;
    if t != "" {
      TameNulFree(t[1..]);
      assert forall i :: 1 <= i < |t| ==> t[i] == t[1..][i - 1];
    }
  }

  // ----- what a call takes

  /** An identifier holds the characters that end one only right behind a dash; a backslash can begin it. */
  predicate IdentLike(tok: string) {
    forall k :: 0 <= k < |tok| && EndsIdent(tok[k]) && tok[k] != '\\' ==> k > 0 && tok[k - 1] == '-'
  }

  /** A pass that began at `t` is in `state`, with `tok` collected and `s` left. */
  predicate Collecting(t: string, s: string, state: State, tok: string) {
    match state
    case Idle => tok == "" && s == t
    case StringSingle => t == "\'" + (tok + s) && '\'' !in tok
    case StringDouble => t == "\"" + (tok + s) && '\"' !in tok
    case MStart => tok == "<" && t == tok + s
    case Equal => tok == "=" && t == tok + s
    case MStop2 | TiStop => t == tok + s && tok != "" && tok[|tok| - 1] in "/?"
    case DashDash | CStop => t == tok + s && IdentLike(tok) && tok != "" && tok[|tok| - 1] == '-'
    case Ident => t == tok + s && IdentLike(tok)
    case Comment => false
    case _ => t == tok + s
  }

  const KINDS := {TError, TEof, TEol, TSepar, TMStart1, TMStart2, TMStop1, TEqual, TString, TIdent, TData}

  /** A string token: it ends at the next quote of its kind, or at the end of the text. */
  predicate StringShape(t: string, raw: string, rest: string) {
    && t != "" && (t[0] == '\'' || t[0] == '\"') && t[0] !in raw
    && (t == [t[0]] + (raw + ([t[0]] + rest)) || (rest == "" && t == [t[0]] + raw))
  }

  /** What a pass over the whole of `t` can return. */
  predicate Shape(t: string, l: Lexed) {
    && !l.inComment && l.mode != Cdata && IsSuffix(l.rest, t) && l.kind in KINDS
    && (l.kind == TMStart1 ==> IsMark(t) && l.rest == t[1..])
    && (l.kind == TEqual ==> t != "" && t[0] == '=' && l.rest == t[1..])
    && (l.kind == TIdent ==> t == l.raw + l.rest && l.rest != "" && EndsIdent(l.rest[0]) && IdentLike(l.raw))
    && (l.kind == TString ==> StringShape(t, l.raw, l.rest))
    && (l.kind in {TIdent, TString} ==> l.mode == Normal)
  }

  ghost predicate StepShape(t: string, s: string, step: Step)
    requires s != ""
  {
    match step
    case Go(state, tok) => Collecting(t, s[1..], state, tok)
    case Out(l) => Shape(t, l)
  }

  lemma IdleShape(t: string)
    requires t != ""
    ensures StepShape(t, t, IdleStep(t[0], "", false))
  {
    hide IsMark;
    assert "" + [t[0]] == [t[0]];
    assert t == [t[0]] + t[1..];
    assert "" + t[1..] == t[1..];
  }

  lemma MStartShape(t: string, s: string)
    requires s != "" && Tame(t) && Collecting(t, s, MStart, "<")
    ensures StepShape(t, s, MStartStep(s, "<", false))
  {
    assert t[0] == '<' && t[1..] == s && TameAt(t);
    assert s[1..] == t[2..];
  }

  /** `TameAt` where the last collected character and the next one meet. */
  lemma MeetTame(t: string, s: string, tok: string)
    requires Tame(t) && t == tok + s && tok != ""
    ensures TameAt([tok[|tok| - 1]] + s)
  {
    hide TameAt, IsMark;
    var u := [tok[|tok| - 1]] + s;
    assert u == t[|t| - |u|..];
    SuffixOf(u, t);
  }

  lemma GrowIdent(t: string, s: string, tok: string, c: char)
    requires s != "" && c == s[0] && t == tok + s && IdentLike(tok)
    requires EndsIdent(c) && c != '\\' ==> tok != "" && tok[|tok| - 1] == '-'
    ensures t == (tok + [c]) + s[1..] && IdentLike(tok + [c])
  {
    hide EndsIdent;
  }

  lemma IdentShape(t: string, s: string, tok: string)
    requires s != "" && Tame(t) && Collecting(t, s, Ident, tok)
    ensures StepShape(t, s, IdentStep(s, tok, false))
  {
    hide EndsIdent, IdentLike, IsMark;
    if !EndsIdent(s[0]) {
      GrowIdent(t, s, tok, s[0]);
    }
  }

  lemma DashShape(t: string, s: string, state: State, tok: string)
    requires s != "" && Tame(t) && state in {DashDash, CStop} && Collecting(t, s, state, tok)
    ensures StepShape(t, s, NormalStep(s, state, tok, false))
  {
    hide EndsIdent, IdentLike, IsMark, StrLen;
    MeetTame(t, s, tok);
    assert ([tok[|tok| - 1]] + s)[1] == s[0];
    GrowIdent(t, s, tok, s[0]);
  }

  lemma StopShape(t: string, s: string, state: State, tok: string)
    requires s != "" && Tame(t) && state in {MStop2, TiStop} && Collecting(t, s, state, tok)
    ensures StepShape(t, s, PlainStep(s, state, tok, false))
  {
    hide EndsIdent, IdentLike, IsMark;
    MeetTame(t, s, tok);
    assert ([tok[|tok| - 1]] + s)[1] == s[0];
  }

  lemma QuoteShape(t: string, s: string, state: State, tok: string)
    requires s != "" && state in {StringSingle, StringDouble} && Collecting(t, s, state, tok)
    ensures StepShape(t, s, PlainStep(s, state, tok, false))
  {
    hide IdentLike, IsMark;
    assert s == [s[0]] + s[1..];
    assert tok + s == (tok + [s[0]]) + s[1..];
  }

  lemma RunShape(t: string, s: string, state: State, tok: string)
    requires s != "" && state in {Eol, Separ, MStop1, Equal} && Collecting(t, s, state, tok)
    ensures StepShape(t, s, PlainStep(s, state, tok, false))
  {
    hide IdentLike, IsMark;
    assert tok + s == (tok + [s[0]]) + s[1..];
  }

  lemma AnyStepShape(t: string, s: string, state: State, tok: string)
    requires s != "" && Tame(t) && Collecting(t, s, state, tok)
    ensures StepShape(t, s, NormalStep(s, state, tok, false))
  {
    hide IdleStep, MStartStep, IdentStep, PlainStep, StepShape, Tame;
    match state
    case Idle => IdleShape(t);
    case MStart => MStartShape(t, s);
    case Ident => IdentShape(t, s, tok);
    case DashDash | CStop => DashShape(t, s, state, tok);
    case MStop2 | TiStop => StopShape(t, s, state, tok);
    case StringSingle | StringDouble => QuoteShape(t, s, state, tok);
    case _ => RunShape(t, s, state, tok);
  }

  ghost predicate PassShape(t: string, pass: Pass) {
    match pass
    case Full(rest) => IsSuffix(rest, t)
    case Ended(l) => Shape(t, l)
  }

  lemma EndShape(t: string, state: State, tok: string)
    requires Tame(t) && Collecting(t, "", state, tok)
    ensures Shape(t, Lexed(KindAtEnd(state), tok, "", Normal, false))
  {
    hide IdentLike, IsMark;
    assert tok + "" == tok;
  }

  lemma CollectingIsSuffix(t: string, s: string, state: State, tok: string)
    requires Collecting(t, s, state, tok)
    ensures IsSuffix(s, t)
  {
    hide IdentLike;
  }

  lemma {:induction false} NormalShape(t: string, s: string, state: State, tok: string, size: Size)
    requires Tame(t) && Collecting(t, s, state, tok)
    ensures PassShape(t, LexNormal(s, state, tok, false, size))
    decreases |s|
  {
    hide NormalStep, Tame, Collecting, Shape, IsSuffix;
    if |tok| >= size {
      CollectingIsSuffix(t, s, state, tok);
    } else if s == "" {
      EndShape(t, state, tok);
    } else {
      AnyStepShape(t, s, state, tok);
      var step := NormalStep(s, state, tok, false);
      if step.Go? {
        NormalShape(t, s[1..], step.state, step.tok, size);
      }
    }
  }

  lemma {:induction false} DataShape(t: string, s: string, tok: string, size: Size)
    requires IsSuffix(s, t)
    ensures PassShape(t, LexData(s, tok, false, size))
    decreases |s|
  {
    if |tok| < size && s != "" && s[0] != '<' {
      assert s[1..] == t[|t| - |s| + 1..];
      DataShape(t, s[1..], tok + [s[0]], size);
    }
  }

  lemma IdleCollects(t: string)
    ensures Collecting(t, t, Idle, "")
  {
  }

  /** A call takes its token from some place `t` behind where it began. */
  lemma {:induction false} LexShape(i: Input) returns (t: string)
    requires Tame(i.text) && !i.inComment && i.mode != Cdata
    ensures IsSuffix(t, i.text)
    ensures var c := Lex(i); Shape(t, Lexed(c.kind, c.raw, c.next.text, c.next.mode, c.next.inComment))
    decreases |i.text|
  {
    hide LexNormal, LexData, Shape, Tame, Collecting;
    if i.mode == Normal {
      IdleCollects(i.text);
      NormalShape(i.text, i.text, Idle, "", i.size);
    } else {
      DataShape(i.text, i.text, "", i.size);
    }
    PassShrinks(i);
    match LexPass(i)
    case Ended(l) => t := i.text;
    case Full(rest) =>
      SuffixOf(rest, i.text);
      t := LexShape(i.(text := rest, size := 2 * i.size));
      SuffixTransitive(t, rest, i.text);
  }

  // ----- tokens that pass a mark

  lemma TagStartPasses(t: string, l: Lexed)
    requires Shape(t, l) && l.kind == TMStart1
    ensures Marks(l.rest) < Marks(t)
  {
    hide OpensValue;
  }

  lemma EqualPasses(t: string, l: Lexed)
    requires Shape(t, l) && l.kind == TEqual
    ensures Count('=', l.rest) < Count('=', t) && Marks(l.rest) <= Marks(t)
  {
    hide IsMark;
  }

  lemma MarkBeforeQuote(w: string)
    requires Tame(w) && w != "" && OpensValue(w[1..])
    ensures w[0] == '=' && Marks(w) == 1 + Marks(w[1..])
  {
    hide OpensValue, RefAt;
  }

  /** The quote behind a value and the next one have a mark between them. */
  lemma ClosingQuotePasses(t: string, raw: string, rest: string)
    requires Tame(t) && t == "'" + (raw + ("'" + rest)) && '\'' !in raw && !Even(t)
    ensures Marks(rest) < Marks(t)
  {
    hide TameAt, IsMark;
    var u := "'" + rest;
    assert u[1..] == rest && u[0] == '\'';
    CountZero('\'', raw);
    CountConcat('\'', raw, u);
    CountConcat('\'', "'", raw + u);
    assert Count('\'', "'") == 1;
    assert OpensValue(u);
    var before := "'" + raw;
    assert t == before + u;
    var w := [before[|before| - 1]] + u;
    assert w[1..] == u && w == t[|t| - |w|..];
    SuffixOf(w, t);
    assert w[0] == (if raw == "" then '\'' else raw[|raw| - 1]);
    MarkBeforeQuote(w);
    SuffixOf(rest, u);
  }

  // ----- the values of torn tokens

  /** Every ampersand starts a reference that the escaper writes. */
  ghost predicate AmpOk(z: string) {
    z != "" ==> (z[0] == '&' ==> RefAt(z)) && AmpOk(z[1..])
  }

  lemma RefChars(c: char)
    ensures var e := Entities.EscapeChar(c, Entities.SingleQuote);
            forall m :: 1 <= m < |e| ==> !EndsIdent(e[m]) && e[m] != '\'' && e[m] != '&'
  {
    hide Entities.Decimal.Itoa;
    Entities.EscapedForms(c, Entities.SingleQuote);
  }

  /** A token does not end within a reference. */
  lemma RefIsTaken(c: char, t: string, k: nat)
    requires StartsRef(c, t) && 0 < k <= |t| && (k == |t| || EndsIdent(t[k]) || t[k] == '\'')
    ensures StartsRef(c, t[..k])
  {
    hide EndsIdent, Entities.EscapeChar;
    var e := Entities.EscapeChar(c, Entities.SingleQuote);
    assert forall m :: 0 <= m < |e| ==> e[m] == t[m];
    RefChars(c);
    assert |e| <= k;
    assert e <= t[..k];
  }

  lemma FindRef(z: string) returns (c: char)
    requires z != "" && RefAt(z)
    ensures StartsRef(c, z)
  {
    c :| StartsRef(c, z);
  }

  lemma {:induction false} TakenAmpOk(t: string, k: nat)
    requires Tame(t) && k <= |t| && (k == |t| || EndsIdent(t[k]) || t[k] == '\'')
    ensures AmpOk(t[..k])
    decreases |t|
  {
    hide EndsIdent, OpensValue, StartsRef;
    if k > 0 {
      var z := t[..k];
      assert z[1..] == t[1..][..k - 1];
      TakenAmpOk(t[1..], k - 1);
      if t[0] == '&' {
        var c := FindRef(t);
        RefIsTaken(c, t, k);
      }
    }
  }

  lemma RefStep(c: char, z: string)
    requires StartsRef(c, z)
    ensures var e := Entities.EscapeChar(c, Entities.SingleQuote);
            z == e + z[|e|..] && Entities.Decode(z) == [c] + Entities.Decode(z[|e|..])
  {
    hide Entities.Decode, Entities.EscapeChar;
    var e := Entities.EscapeChar(c, Entities.SingleQuote);
    assert z == e + z[|e|..];
    Entities.DecodeOfEscapedChar(c, Entities.SingleQuote, z[|e|..]);
  }

  lemma {:induction false} AmpOkSuffix(z: string, k: nat)
    requires AmpOk(z) && k <= |z|
    ensures AmpOk(z[k..])
  {
    hide RefAt;
    if k == 0 {
      assert z[0..] == z;
    } else {
      AmpOkSuffix(z[1..], k - 1);
      assert z[1..][k - 1..] == z[k..];
    }
  }

  lemma NoRefFor(r: char, c: char)
    requires |Entities.EscapeChar(r, Entities.SingleQuote)| > 1 && c in "=\""
    ensures r != c && Count(c, [r]) == 0
  {
  }

  /**
   No reference stands for an equals sign or a double quote, so there are no
   more of them in the value than in its text.
   */
  lemma {:induction false} DecodeCounts(c: char, z: string)
    requires AmpOk(z) && c in "=\""
    ensures Count(c, Entities.Decode(z)) <= Count(c, z)
    decreases |z|
  {
    hide Entities.Decode, Entities.EscapeChar, RefAt;
    if z == "" {
      Entities.EmptyTexts(Entities.SingleQuote);
    } else if z[0] == '&' {
      var r := FindRef(z);
      var e := Entities.EscapeChar(r, Entities.SingleQuote);
      RefStep(r, z);
      AmpOkSuffix(z, |e|);
      DecodeCounts(c, z[|e|..]);
      NoRefFor(r, c);
      SuffixCounts(c, z[|e|..], z);
      CountConcat(c, [r], Entities.Decode(z[|e|..]));
    } else {
      assert z == [z[0]] + z[1..];
      Entities.DecodeOfLiteral(z[0], z[1..]);
      DecodeCounts(c, z[1..]);
      assert ([z[0]] + Entities.Decode(z[1..]))[1..] == Entities.Decode(z[1..]);
    }
  }

  /** What the escaper leaves as it is within a value, and the quote. */
  predicate IsLiteral(c: char) {
    c != '<' && c != '>' && c as int != 127 && (c >= ' ' || c == '\t' || c == '\n')
  }

  lemma EscapeOfMore(c: char, s: string)
    ensures Entities.Escape([c] + s, Entities.SingleQuote)
         == Entities.EscapeChar(c, Entities.SingleQuote) + Entities.Escape(s, Entities.SingleQuote)
  {
    hide Entities.EscapeChar;
    assert ([c] + s)[1..] == s;
  }

  lemma LiteralLength(c: char)
    requires IsLiteral(c) && c != '&'
    ensures |Entities.EscapeChar(c, Entities.SingleQuote)| == if c == '\'' then 6 else 1
  {
  }

  /** Decoding and escaping again makes a text longer only for the quotes in it. */
  lemma {:induction false} EscapeDecodeLength(z: string)
    requires AmpOk(z) && forall i :: 0 <= i < |z| ==> IsLiteral(z[i])
    ensures |Entities.Escape(Entities.Decode(z), Entities.SingleQuote)| <= |z| + 5 * Count('\'', z)
    decreases |z|
  {
    hide Entities.Decode, Entities.EscapeChar, RefAt, Entities.Escape, IsLiteral;
    if z == "" {
      Entities.EmptyTexts(Entities.SingleQuote);
    } else if z[0] == '&' {
      var r := FindRef(z);
      var e := Entities.EscapeChar(r, Entities.SingleQuote);
      RefStep(r, z);
      AmpOkSuffix(z, |e|);
      EscapeDecodeLength(z[|e|..]);
      SuffixCounts('\'', z[|e|..], z);
      EscapeOfMore(r, Entities.Decode(z[|e|..]));
    } else {
      assert z == [z[0]] + z[1..];
      Entities.DecodeOfLiteral(z[0], z[1..]);
      EscapeDecodeLength(z[1..]);
      EscapeOfMore(z[0], Entities.Decode(z[1..]));
      LiteralLength(z[0]);
    }
  }

  lemma EscapeCharCount(c: char, d: char)
    requires c in "=\""
    ensures Count(c, Entities.EscapeChar(d, Entities.SingleQuote)) == if c == d then 1 else 0
  {
    hide Entities.Decimal.Itoa;
    Entities.EscapedForms(d, Entities.SingleQuote);
    var e := Entities.EscapeChar(d, Entities.SingleQuote);
    if |e| > 1 {
      assert c !in e;
      CountZero(c, e);
    } else {
      assert e == [d];
    }
  }

  /** Escaping neither adds nor takes away equals signs and double quotes. */
  lemma {:induction false} EscapeCounts(c: char, v: string)
    requires c in "=\""
    ensures Count(c, Entities.Escape(v, Entities.SingleQuote)) == Count(c, v)
  {
    hide Entities.EscapeChar;
    if v != "" {
      EscapeCounts(c, v[1..]);
      CountConcat(c, Entities.EscapeChar(v[0], Entities.SingleQuote), Entities.Escape(v[1..], Entities.SingleQuote));
      EscapeCharCount(c, v[0]);
    }
  }
}
