/**
 The first half of the round trip: what the lexer makes of the pieces of a
 printed tree, for a token buffer of any size.
 */
module XmlRoundTripLexing {
  import opened CText
  import opened L = XmlLexer
  import opened XmlBuilder
  import opened XmlPrinter
  import Entities

  function Ahead(s: string, mode: Mode, size: Size): Input {
    Input(s, mode, false, size)
  }

  /** The size of the buffer once a run of `n` characters has gone through it. */
  function Grown(size: Size, n: nat): (r: Size)
    ensures r >= size
    decreases n
  {
    if n < size then size else Grown(2 * size, n - size)
  }

  // ----- calls that end without filling the buffer

  lemma CallOfNormal(s: string, size: Size, l: Lexed)
    requires LexNormal(s, Idle, "", false, size) == Ended(l)
    ensures Lex(Ahead(s, Normal, size)) == Call(l.kind, l.raw, Input(l.rest, l.mode, l.inComment, size))
  {
    hide LexNormal;
    CallOfPass(Ahead(s, Normal, size), l);
  }

  /** The first character of a token. */
  lemma FirstChar(s: string, state: State, size: Size)
    requires s != "" && s[0] != '\"' && s[0] != '\'' && IdleState(s[0], false) == state
    ensures LexNormal(s, Idle, "", false, size) == LexNormal(s[1..], state, [s[0]], false, size)
  {
    assert "" + [s[0]] == [s[0]];
  }

  lemma EndOfTagStart(x: string, size: Size)
    requires x != "" && x[0] !in "/!?"
    ensures LexNormal(x, MStart, "<", false, size) == Ended(Lexed(TMStart1, "<", x, Normal, false))
  {
  }

  /** A character that ends its token by itself, or a token of two. */
  lemma LexMStart1(x: string, size: Size)
    requires x != "" && x[0] !in "/!?"
    ensures Lex(Ahead("<" + x, Normal, size)) == Call(TMStart1, "<", Ahead(x, Normal, size))
  {
    hide LexNormal, Lex;
    var s := "<" + x;
    assert s[1..] == x && s[0] == '<';
    FirstChar(s, MStart, size);
    EndOfTagStart(x, size);
    CallOfNormal(s, size, Lexed(TMStart1, "<", x, Normal, false));
  }

  lemma EndOfCloseStart(x: string, size: Size)
    ensures LexNormal("/" + x, MStart, "<", false, size) == Ended(Lexed(TMStart2, "</", x, Normal, false))
  {
    assert ("/" + x)[1..] == x && ("/" + x)[0] == '/';
  }

  lemma LexMStart2(x: string, size: Size)
    ensures Lex(Ahead("</" + x, Normal, size)) == Call(TMStart2, "</", Ahead(x, Normal, size))
  {
    hide LexNormal, Lex;
    var s := "</" + x;
    assert s[1..] == "/" + x && s[0] == '<';
    FirstChar(s, MStart, size);
    EndOfCloseStart(x, size);
    CallOfNormal(s, size, Lexed(TMStart2, "</", x, Normal, false));
  }

  lemma EndOfTagEnd(x: string, size: Size)
    ensures LexNormal(x, MStop1, ">", false, size)
         == Ended(Lexed(TMStop1, ">", x, if x == "" then Normal else Data, false))
  {
  }

  /** At the end of the text the mode is not changed. */
  lemma LexMStop1(x: string, size: Size)
    ensures Lex(Ahead(">" + x, Normal, size)) == Call(TMStop1, ">", Ahead(x, if x == "" then Normal else Data, size))
  {
    hide LexNormal, Lex;
    var s := ">" + x;
    var mode := if x == "" then Normal else Data;
    assert s[1..] == x && s[0] == '>';
    FirstChar(s, MStop1, size);
    EndOfTagEnd(x, size);
    CallOfNormal(s, size, Lexed(TMStop1, ">", x, mode, false));
  }

  lemma EndOfEqual(x: string, size: Size)
    ensures LexNormal(x, Equal, "=", false, size) == Ended(Lexed(TEqual, "=", x, Normal, false))
  {
  }

  lemma LexEqual(x: string, size: Size)
    ensures Lex(Ahead("=" + x, Normal, size)) == Call(TEqual, "=", Ahead(x, Normal, size))
  {
    hide LexNormal, Lex;
    var s := "=" + x;
    assert s[1..] == x && s[0] == '=';
    FirstChar(s, Equal, size);
    EndOfEqual(x, size);
    CallOfNormal(s, size, Lexed(TEqual, "=", x, Normal, false));
  }

  lemma EndOfLine(x: string, size: Size)
    requires x != "" && x[0] != '\n' && x[0] != '\r'
    ensures LexNormal(x, Eol, "\n", false, size) == Ended(Lexed(TEol, "\n", x, Normal, false))
  {
  }

  lemma LexEol(x: string, size: Size)
    requires x != "" && x[0] != '\n' && x[0] != '\r'
    ensures Lex(Ahead("\n" + x, Normal, size)) == Call(TEol, "\n", Ahead(x, Normal, size))
  {
    hide LexNormal, Lex;
    var s := "\n" + x;
    assert s[1..] == x && s[0] == '\n';
    FirstChar(s, Eol, size);
    EndOfLine(x, size);
    CallOfNormal(s, size, Lexed(TEol, "\n", x, Normal, false));
  }

  // ----- blanks, which may be longer than the buffer

  predicate AreBlanks(b: string) {
    forall i :: 0 <= i < |b| ==> b[i] == ' '
  }

  /** A run of blanks fills the buffer or ends in it. */
  lemma {:induction false} SeparRun(b: string, tok: string, x: string, size: Size)
    requires AreBlanks(b) && x != "" && x[0] != ' ' && x[0] != '\t' && |tok| <= size
    ensures LexNormal(b + x, Separ, tok, false, size)
         == if |tok| + |b| < size then Ended(Lexed(TSepar, tok + b, x, Normal, false))
            else Full(b[size - |tok|..] + x)
    decreases |b|
  {
    if |tok| == size {
      assert b[0..] == b;
    } else if b == "" {
      assert b + x == x && tok + b == tok;
    } else {
      var s := b + x;
      assert s[1..] == b[1..] + x && s[0] == ' ';
      SeparRun(b[1..], tok + [' '], x, size);
      assert tok + [' '] + b[1..] == tok + b;
      if |tok| + |b| >= size {
        assert b[1..][size - |tok| - 1..] == b[size - |tok|..];
      }
    }
  }

  lemma CallOfFull(i: Input, rest: string)
    requires LexPass(i) == Full(rest)
    ensures Lex(i) == Lex(i.(text := rest, size := 2 * i.size))
  {
    hide LexPass;
  }

  /** The call that reads blanks: a token of what does not fill a buffer, or the token behind them. */
  lemma LexBlanks(b: string, x: string, size: Size)
    requires b != "" && AreBlanks(b) && x != "" && x[0] != ' ' && x[0] != '\t'
    ensures Lex(Ahead(b + x, Normal, size))
         == if |b| < size then Call(TSepar, b, Ahead(x, Normal, size)) else Lex(Ahead(b[size..] + x, Normal, 2 * size))
  {
    hide LexNormal, Lex;
    var s := b + x;
    assert s[1..] == b[1..] + x && s[0] == ' ';
    FirstChar(s, Separ, size);
    SeparRun(b[1..], " ", x, size);
    assert " " + b[1..] == b;
    if |b| < size {
      CallOfNormal(s, size, Lexed(TSepar, b, x, Normal, false));
    } else {
      assert b[1..][size - 1..] == b[size..];
      CallOfFull(Ahead(s, Normal, size), b[size..] + x);
    }
  }

  /** Character data up to the next tag, likewise. */
  lemma {:induction false} DataRun(d: string, tok: string, x: string, size: Size)
    requires (forall i :: 0 <= i < |d| ==> d[i] != '<') && |tok| <= size
    ensures LexData(d + ("<" + x), tok, false, size)
         == if |tok| + |d| < size then Ended(Lexed(TData, tok + d, "<" + x, Normal, false))
            else Full(d[size - |tok|..] + ("<" + x))
    decreases |d|
  {
    if |tok| == size {
      assert d[0..] == d;
    } else if d == "" {
      assert d + ("<" + x) == "<" + x && tok + d == tok;
    } else {
      var s := d + ("<" + x);
      assert s[1..] == d[1..] + ("<" + x) && s[0] == d[0];
      DataRun(d[1..], tok + [d[0]], x, size);
      assert tok + [d[0]] + d[1..] == tok + d;
      if |tok| + |d| >= size {
        assert d[1..][size - |tok| - 1..] == d[size - |tok|..];
      }
    }
  }

  lemma LexDataText(d: string, x: string, size: Size)
    requires forall i :: 0 <= i < |d| ==> d[i] != '<'
    ensures Lex(Ahead(d + ("<" + x), Data, size))
         == if |d| < size then Call(TData, d, Ahead("<" + x, Normal, size))
            else Lex(Ahead(d[size..] + ("<" + x), Data, 2 * size))
  {
    hide LexData, Lex;
    DataRun(d, "", x, size);
    assert "" + d == d;
    var i := Ahead(d + ("<" + x), Data, size);
    if |d| < size {
      CallOfPass(i, Lexed(TData, d, "<" + x, Normal, false));
    } else {
      CallOfFull(i, d[size..] + ("<" + x));
    }
  }

  // ----- names and values

  lemma FullBuffer(s: string, state: State, tok: string, size: Size)
    requires |tok| >= size
    ensures LexNormal(s, state, tok, false, size) == Full(s)
  {
  }

  lemma IdentEnds(x: string, tok: string, size: Size)
    requires x != "" && EndsIdent(x[0]) && |tok| < size
    ensures LexNormal(x, Ident, tok, false, size) == Ended(Lexed(TIdent, tok, x, Normal, false))
  {
  }

  function NextIdentState(state: State, c: char): State {
    if c != '-' || state == CStop then Ident else if state == DashDash then CStop else DashDash
  }

  lemma IdentStepPlain(s: string, state: State, tok: string, size: Size)
    requires s != "" && (state == Ident || state == DashDash || state == CStop) && |tok| < size
    requires !EndsIdent(s[0]) && s[0] != '?'
    ensures LexNormal(s, state, tok, false, size)
         == LexNormal(s[1..], NextIdentState(state, s[0]), tok + [s[0]], false, size)
  {
    hide StrLen;
  }

  /** From the middle of an identifier, dashes included: it ends in the buffer or fills it. */
  lemma {:induction false} IdentRun(n: string, state: State, tok: string, x: string, size: Size)
    requires state == Ident || ((state == DashDash || state == CStop) && n != "")
    requires PlainChars(n) && (n != "" ==> n[|n| - 1] != '-')
    requires x != "" && EndsIdent(x[0]) && |tok| <= size
    ensures LexNormal(n + x, state, tok, false, size)
         == if |tok| + |n| < size then Ended(Lexed(TIdent, tok + n, x, Normal, false))
            else Full(n[size - |tok|..] + x)
    decreases |n|
  {
    hide LexNormal, EndsIdent;
    if |tok| == size {
      FullBuffer(n + x, state, tok, size);
      assert n[0..] == n;
    } else if n == "" {
      IdentEnds(x, tok, size);
      assert n + x == x && tok + n == tok;
    } else {
      var s, c, t := n + x, n[0], n[1..];
      assert s[1..] == t + x && s[0] == c;
      IdentStepPlain(s, state, tok, size);
      IdentRun(t, NextIdentState(state, c), tok + [c], x, size);
      assert tok + [c] + t == tok + n;
      if |tok| + |n| >= size {
        assert t[size - |tok| - 1..] == n[size - |tok|..];
      }
    }
  }

  /** The characters of a name, from anywhere in it on. */
  predicate NameRest(n: string) {
    n != "" ==> n[0] != '\'' && n[|n| - 1] != '-' && PlainChars(n)
  }

  lemma PlainStart(c: char)
    requires !EndsIdent(c) && c != '?' && c != '\''
    ensures c != '\"' && IdleState(c, false) == if c == '-' then DashDash else Ident
  {
  }

  lemma LexName(n: string, x: string, size: Size)
    requires n != "" && NameRest(n)
    requires x != "" && EndsIdent(x[0])
    ensures Lex(Ahead(n + x, Normal, size))
         == if |n| < size then Call(TIdent, n, Ahead(x, Normal, size)) else Lex(Ahead(n[size..] + x, Normal, 2 * size))
  {
    hide LexNormal, Lex;
    var s, t := n + x, n[1..];
    assert s[1..] == t + x && s[0] == n[0];
    PlainStart(n[0]);
    FirstChar(s, if n[0] == '-' then DashDash else Ident, size);
    assert PlainChars(t);
    IdentRun(t, if n[0] == '-' then DashDash else Ident, [n[0]], x, size);
    assert [n[0]] + t == n;
    if |n| < size {
      CallOfNormal(s, size, Lexed(TIdent, n, x, Normal, false));
    } else {
      assert t[size - 1..] == n[size..];
      CallOfFull(Ahead(s, Normal, size), n[size..] + x);
    }
  }

  lemma PlainNameIsRest(cfg: Config, n: string)
    requires PlainName(cfg, n)
    ensures n != "" && NameRest(n) && n[0] !in "\n\r \t/!?<>"
  {
  }

  lemma {:induction false} StringRun(v: string, tok: string, x: string, size: Size)
    requires (forall i :: 0 <= i < |v| ==> v[i] != '\'') && |tok| <= size
    ensures LexNormal(v + ("'" + x), StringSingle, tok, false, size)
         == if |tok| + |v| < size then Ended(Lexed(TString, tok + v, x, Normal, false))
            else Full(v[size - |tok|..] + ("'" + x))
    decreases |v|
  {
    if |tok| == size {
      assert v[0..] == v;
    } else if v == "" {
      assert v + ("'" + x) == "'" + x && tok + v == tok;
      assert ("'" + x)[1..] == x;
    } else {
      var s := v + ("'" + x);
      assert s[1..] == v[1..] + ("'" + x) && s[0] == v[0];
      StringRun(v[1..], tok + [v[0]], x, size);
      assert tok + [v[0]] + v[1..] == tok + v;
      if |tok| + |v| >= size {
        assert v[1..][size - |tok| - 1..] == v[size - |tok|..];
      }
    }
  }

  /** A quoted value: a token, or, when it fills the buffer, whatever its remainder is the beginning of. */
  lemma LexString(v: string, x: string, size: Size)
    requires forall i :: 0 <= i < |v| ==> v[i] != '\''
    ensures Lex(Ahead("'" + (v + ("'" + x)), Normal, size))
         == if |v| < size then Call(TString, v, Ahead(x, Normal, size))
            else Lex(Ahead(v[size..] + ("'" + x), Normal, 2 * size))
  {
    hide Lex;
    var s := "'" + (v + ("'" + x));
    assert s[1..] == v + ("'" + x) && s[0] == '\'';
    StringRun(v, "", x, size);
    assert "" + v == v;
    if |v| < size {
      CallOfNormal(s, size, Lexed(TString, v, x, Normal, false));
    } else {
      CallOfFull(Ahead(s, Normal, size), v[size..] + ("'" + x));
    }
  }

  function QuoteState(q: char): State {
    if q == '\'' then StringSingle else StringDouble
  }

  /** A string that fills the buffer before its closing quote. */
  lemma {:induction false} StringFills(v: string, q: char, tok: string, x: string, size: Size)
    requires q in "'\"" && q !in v && |tok| + |v| == size
    ensures LexNormal(v + x, QuoteState(q), tok, false, size) == Full(x)
    decreases |v|
  {
    var s := v + x;
    if v == "" {
      assert s == x;
    } else {
      assert s[1..] == v[1..] + x && s[0] == v[0] && v == [v[0]] + v[1..];
      StringFills(v[1..], q, tok + [v[0]], x, size);
    }
  }

  lemma LexStringFills(v: string, q: char, x: string, size: Size)
    requires q in "'\"" && q !in v && |v| == size
    ensures Lex(Ahead([q] + (v + x), Normal, size)) == Lex(Ahead(x, Normal, 2 * size))
  {
    hide Lex;
    var s := [q] + (v + x);
    assert s[1..] == v + x && s[0] == q;
    StringFills(v, q, "", x, size);
    CallOfFull(Ahead(s, Normal, size), x);
  }

  lemma EscapedIsQuotable(value: string)
    requires NulFree(value)
    ensures forall i :: 0 <= i < |Quoted(value)| ==> Quoted(value)[i] != '\'' && Quoted(value)[i] != '\0'
  {
    hide Entities.Escape;
    Entities.EscapeIsClean(value, Entities.SingleQuote);
    forall i | 0 <= i < |Quoted(value)|
      ensures Quoted(value)[i] != '\'' && Quoted(value)[i] != '\0'
    {
      assert Entities.IsCleanAt(Quoted(value), Entities.SingleQuote, i);
    }
  }
}
