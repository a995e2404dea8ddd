/**
 The XML lexer (plparse/xmllexer.c:99-595): three modes (ordinary markup,
 character data, CDATA sections) crossed with the states of one token.

 `Lex` says what one call does to the text still to be read; the code that
 does it is in `XmlLexerCode`.
 */
module XmlLexer {
  import opened CText

  datatype Kind =
    | TError | TEof | TEol | TSepar | TMStart1 | TMStart2 | TMStop1 | TMStop2 | TEqual | TString | TIdent | TData
    | TCStart | TCStop | TTiStart | TTiStop | TDoctypeStart | TCdataStart | TCdataStop

  datatype Mode = Normal | Data | Cdata

  datatype State =
    | Idle | Eol | Separ | MStart | MStop1 | MStop2 | Equal | StringSingle | StringDouble
    | Comment | TiStop | DashDash | CStop | Ident

  /** `tok_size`: it is 64 KiB at first (plparse/xmlparser.c:57) and only ever doubled. */
  type Size = n: nat | n >= 16 witness 16

  /**
   What the lexer still has to read, and with what: the rest of the text, its
   own state and the size of the token buffer.
   */
  datatype Input = Input(text: string, mode: Mode, inComment: bool, size: Size)

  /** What a call returns and leaves behind: `raw` is the token buffer up to `tok_pos`. */
  datatype Lexed = Lexed(kind: Kind, raw: string, rest: string, mode: Mode, inComment: bool)

  /** What one character does in ordinary markup. */
  datatype Step = Go(state: State, tok: string) | Out(lexed: Lexed)

  /** One run of the character loop: a token, or a full buffer with `rest` still to be read. */
  datatype Pass = Full(rest: string) | Ended(lexed: Lexed)

  datatype Call = Call(kind: Kind, raw: string, next: Input)

  predicate EndsIdent(c: char) {
    c in "<>\\\" \t\n\r=/"
  }

  /** The state that the first character of a token selects, quotes apart. */
  function IdleState(c: char, inComment: bool): (state: State)
    ensures state == DashDash <==> c == '-'
    ensures state != CStop && state != Comment
  {
    match c
    case '\n' => Eol
    case '\r' => Eol
    case ' ' => Separ
    case '\t' => Separ
    case '<' => MStart
    case '>' => MStop1
    case '/' => if inComment then Idle else MStop2
    case '=' => Equal
    case '-' => DashDash
    case '?' => if inComment then Idle else TiStop
    case _ => Ident
  }

  /** The first character of a token; a quote is not part of it. */
  function IdleStep(c: char, tok: string, inComment: bool): Step {
    if c == '\"' then Go(StringDouble, tok)
    else if c == '\'' then Go(StringSingle, tok)
    else Go(IdleState(c, inComment), tok + [c])
  }

  /** After `<`. */
  function MStartStep(s: string, tok: string, inComment: bool): Step
    requires s != ""
  {
    match s[0]
    case '/' => Out(Lexed(TMStart2, tok + "/", s[1..], Normal, inComment))
    case '!' => Go(Comment, tok + "!")
    case '?' => Out(Lexed(TTiStart, tok + "?", s[1..], Normal, inComment))
    case _ => Out(Lexed(TMStart1, tok, s, Normal, inComment))
  }

  /** After `<!`; a single `-` is dropped and the state kept. */
  function CommentStep(s: string, tok: string, inComment: bool): Step
    requires s != ""
  {
    var t := s[1..];
    match s[0]
    case '-' =>
      if "-" <= t then Out(Lexed(TCStart, tok + "--", t[1..], Normal, true))
      else Go(Comment, tok)
    case 'D' =>
      if "OCTYPE" <= t then Out(Lexed(TDoctypeStart, tok + "DOCTYPE", t[6..], Normal, inComment))
      else Out(Lexed(TError, tok, t, Normal, inComment))
    case '[' =>
      if "CDATA[" <= t then Out(Lexed(TCdataStart, tok + "[CDATA[", t[6..], Cdata, inComment))
      else Out(Lexed(TError, tok, t, Normal, inComment))
    case _ => Out(Lexed(TError, tok, s, Normal, inComment))
  }

  /** After `--`; when more than `-->` has been collected, those three characters are pushed back. */
  function CStopStep(s: string, tok: string, inComment: bool): Step
    requires s != ""
  {
    if s[0] != '>' then Go(Ident, tok + [s[0]])
    else if StrLen(tok + ">") != 3 then
      Out(Lexed(TIdent, if |tok| >= 2 then tok[..|tok| - 2] else "", "-->" + s[1..], Normal, inComment))
    else Out(Lexed(TCStop, tok + ">", s[1..], Normal, false))
  }

  function IdentStep(s: string, tok: string, inComment: bool): Step
    requires s != ""
  {
    if EndsIdent(s[0]) then Out(Lexed(TIdent, tok, s, Normal, inComment))
    else Go(if s[0] == '?' then TiStop else if s[0] == '-' then DashDash else Ident, tok + [s[0]])
  }

  /** The states that run over one class of characters or end at once. */
  function PlainStep(s: string, state: State, tok: string, inComment: bool): Step
    requires s != ""
  {
    var c, t := s[0], s[1..];
    match state
    case Eol => if c == '\n' || c == '\r' then Go(Eol, tok + [c]) else Out(Lexed(TEol, tok, s, Normal, inComment))
    case Separ => if c == ' ' || c == '\t' then Go(Separ, tok + [c]) else Out(Lexed(TSepar, tok, s, Normal, inComment))
    case MStop1 => Out(Lexed(TMStop1, tok, s, if inComment then Normal else Data, inComment))
    case MStop2 =>
      if c == '>' then Out(Lexed(TMStop2, tok + ">", t, if inComment then Normal else Data, inComment))
      else Out(Lexed(TError, tok, s, Normal, inComment))
    case TiStop =>
      if c == '>' then Out(Lexed(TTiStop, tok + ">", t, if inComment then Normal else Data, inComment))
      else Out(Lexed(TError, tok, s, Normal, inComment))
    case StringDouble =>
      if c == '\"' then Out(Lexed(TString, tok, t, Normal, inComment))
      else Go(StringDouble, tok + [c])
    case StringSingle =>
      if c == '\'' then Out(Lexed(TString, tok, t, Normal, inComment))
      else Go(StringSingle, tok + [c])
    case _ => Out(Lexed(TEqual, tok, s, Normal, inComment))
  }

  function NormalStep(s: string, state: State, tok: string, inComment: bool): Step
    requires s != ""
  {
    match state
    case Idle => IdleStep(s[0], tok, inComment)
    case MStart => MStartStep(s, tok, inComment)
    case Comment => CommentStep(s, tok, inComment)
    case DashDash => Go(if s[0] == '-' then CStop else Ident, tok + [s[0]])
    case CStop => CStopStep(s, tok, inComment)
    case Ident => IdentStep(s, tok, inComment)
    case _ => PlainStep(s, state, tok, inComment)
  }

  /** The end of the buffer reached within a token. */
  function KindAtEnd(state: State): Kind {
    match state
    case Idle | Eol | Separ => TEof
    case MStart => TMStart1
    case MStop1 => TMStop1
    case Equal => TEqual
    case StringSingle | StringDouble => TString
    case Ident => TData
    case MStop2 | Comment | TiStop | DashDash | CStop => TError
  }

  function LexNormal(s: string, state: State, tok: string, inComment: bool, size: Size): Pass
    decreases |s|
  {
    if |tok| >= size then Full(s)
    else if s == "" then Ended(Lexed(KindAtEnd(state), tok, "", Normal, inComment))
    else
      match NormalStep(s, state, tok, inComment)
      case Go(state', tok') => LexNormal(s[1..], state', tok', inComment, size)
      case Out(lexed) => Ended(lexed)
  }

  function LexData(s: string, tok: string, inComment: bool, size: Size): Pass {
    if |tok| >= size then Full(s)
    else if s == "" then Ended(Lexed(TEof, tok, "", Data, inComment))
    else if s[0] == '<' then Ended(Lexed(TData, tok, s, Normal, inComment))
    else LexData(s[1..], tok + [s[0]], inComment, size)
  }

  function LexCdata(s: string, tok: string, inComment: bool, size: Size): Pass {
    if |tok| >= size then Full(s)
    else if s == "" then Ended(Lexed(TEof, tok, "", Cdata, inComment))
    else if "]]>" <= s then Ended(Lexed(TCdataStop, tok, s[3..], Data, inComment))
    else LexCdata(s[1..], tok + [s[0]], inComment, size)
  }

  function LexPass(i: Input): Pass {
    match i.mode
    case Normal => LexNormal(i.text, Idle, "", i.inComment, i.size)
    case Data => LexData(i.text, "", i.inComment, i.size)
    case Cdata => LexCdata(i.text, "", i.inComment, i.size)
  }

  function Measure(s: string, mode: Mode): nat {
    2 * |s| + if mode == Data then 1 else 0
  }

  /** What the collected token says about its state; `n` characters were left when the token began. */
  predicate Collected(n: nat, s: string, state: State, tok: string) {
    && |s| + |tok| <= n
    && (state != Idle ==> |s| < n)
    && (state == DashDash ==> |tok| >= 1 && tok[|tok| - 1..] == "-")
    && (state == CStop ==> |tok| >= 2 && tok[|tok| - 2..] == "--")
  }

  /** What is left after a pass that began with `n` characters. */
  ghost predicate Shrinks(n: nat, pass: Pass) {
    match pass
    case Full(rest) => |rest| < n
    case Ended(l) => |l.rest| <= n && (l.kind != TEof && l.kind != TError ==> |l.rest| < n)
  }

  lemma CollectedBounds(n: nat, s: string, state: State, tok: string)
    requires Collected(n, s, state, tok)
    ensures |s| + |tok| <= n && (state != Idle ==> |s| < n)
  {
  }

  predicate Keeps(n: nat, s: string, step: Step)
    requires s != ""
  {
    match step
    case Go(state, tok) => Collected(n, s[1..], state, tok)
    case Out(l) => |l.rest| <= n && (l.kind != TError ==> |l.rest| < n)
  }

  lemma IdleKeeps(n: nat, s: string, tok: string, inComment: bool)
    requires s != "" && Collected(n, s, Idle, tok)
    ensures Keeps(n, s, IdleStep(s[0], tok, inComment))
  {
    hide IdleState;
    assert (tok + [s[0]])[|tok|..] == [s[0]];
  }

  lemma MStartKeeps(n: nat, s: string, tok: string, inComment: bool)
    requires s != "" && Collected(n, s, MStart, tok)
    ensures Keeps(n, s, MStartStep(s, tok, inComment))
  {
  }

  lemma CommentKeeps(n: nat, s: string, tok: string, inComment: bool)
    requires s != "" && Collected(n, s, Comment, tok)
    ensures Keeps(n, s, CommentStep(s, tok, inComment))
  {
  }

  lemma CStopKeeps(n: nat, s: string, tok: string, inComment: bool)
    requires s != "" && Collected(n, s, CStop, tok)
    ensures Keeps(n, s, CStopStep(s, tok, inComment))
  {
    if |tok| == 2 {
      assert tok == tok[|tok| - 2..];
      assert tok + ">" == "-->";
      assert StrLen("-->") == 3;
    }
  }

  lemma DashDashKeeps(n: nat, s: string, tok: string)
    requires s != "" && Collected(n, s, DashDash, tok)
    ensures Keeps(n, s, Go(if s[0] == '-' then CStop else Ident, tok + [s[0]]))
  {
    assert (tok + ['-'])[|tok| - 1..] == tok[|tok| - 1..] + "-";
  }

  lemma IdentKeeps(n: nat, s: string, tok: string, inComment: bool)
    requires s != "" && Collected(n, s, Ident, tok)
    ensures Keeps(n, s, IdentStep(s, tok, inComment))
  {
    hide EndsIdent;
    assert (tok + [s[0]])[|tok|..] == [s[0]];
  }

  /** A run goes on in its state, and a token ends behind the character or in front of it. */
  lemma PlainStepShape(s: string, state: State, tok: string, inComment: bool)
    requires s != "" && state !in {Idle, Comment, DashDash, CStop, MStart, Ident}
    ensures var step := PlainStep(s, state, tok, inComment);
            if step.Go? then step == Go(state, tok + [s[0]]) else step.lexed.rest == s || step.lexed.rest == s[1..]
  {
  }

  lemma PlainKeeps(n: nat, s: string, state: State, tok: string, inComment: bool)
    requires s != "" && state !in {Idle, Comment, DashDash, CStop, MStart, Ident} && Collected(n, s, state, tok)
    ensures Keeps(n, s, PlainStep(s, state, tok, inComment))
  {
    CollectedBounds(n, s, state, tok);
    PlainStepShape(s, state, tok, inComment);
    hide PlainStep;
  }

  lemma StepKeeps(n: nat, s: string, state: State, tok: string, inComment: bool)
    requires s != "" && Collected(n, s, state, tok)
    ensures Keeps(n, s, NormalStep(s, state, tok, inComment))
  {
    hide IdleStep, MStartStep, CommentStep, CStopStep, IdentStep, PlainStep, Keeps, Collected;
    match state
    case Idle => IdleKeeps(n, s, tok, inComment);
    case MStart => MStartKeeps(n, s, tok, inComment);
    case Comment => CommentKeeps(n, s, tok, inComment);
    case CStop => CStopKeeps(n, s, tok, inComment);
    case DashDash => DashDashKeeps(n, s, tok);
    case Ident => IdentKeeps(n, s, tok, inComment);
    case _ => PlainKeeps(n, s, state, tok, inComment);
  }

  lemma {:induction false} LexNormalShrinks(n: nat, s: string, state: State, tok: string, inComment: bool, size: Size)
    requires Collected(n, s, state, tok)
    ensures Shrinks(n, LexNormal(s, state, tok, inComment, size))
    decreases |s|
  {
    hide NormalStep, Collected;
    CollectedBounds(n, s, state, tok);
    if |tok| < size && s != "" {
      StepKeeps(n, s, state, tok, inComment);
      match NormalStep(s, state, tok, inComment)
      case Go(state', tok') => LexNormalShrinks(n, s[1..], state', tok', inComment, size);
      case Out(l) =>
    }
  }

  lemma {:induction false} LexDataShrinks(s: string, tok: string, inComment: bool, size: Size)
    ensures match LexData(s, tok, inComment, size)
            case Full(rest) => |rest| + size <= |s| + |tok|
            case Ended(l) => |l.rest| <= |s| && (l.kind == TEof || (l.kind == TData && l.mode == Normal))
  {
    if |tok| < size && s != "" && s[0] != '<' {
      LexDataShrinks(s[1..], tok + [s[0]], inComment, size);
    }
  }

  lemma {:induction false} LexCdataShrinks(s: string, tok: string, inComment: bool, size: Size)
    ensures match LexCdata(s, tok, inComment, size)
            case Full(rest) => |rest| + size <= |s| + |tok|
            case Ended(l) => |l.rest| <= |s| && (l.kind == TEof || (l.kind == TCdataStop && |l.rest| + 3 <= |s|))
  {
    if |tok| < size && s != "" && !("]]>" <= s) {
      LexCdataShrinks(s[1..], tok + [s[0]], inComment, size);
    }
  }

  lemma PassShrinks(i: Input)
    ensures match LexPass(i)
            case Full(rest) => |rest| < |i.text|
            case Ended(l) =>
              && |l.rest| <= |i.text|
              && (l.kind != TEof && l.kind != TError ==> Measure(l.rest, l.mode) < Measure(i.text, i.mode))
  {
    match i.mode
    case Normal => LexNormalShrinks(|i.text|, i.text, Idle, "", i.inComment, i.size);
    case Data => LexDataShrinks(i.text, "", i.inComment, i.size);
    case Cdata => LexCdataShrinks(i.text, "", i.inComment, i.size);
  }

  /**
   One call of `lexer_get_token_d_r`.  A token that fills the buffer is
   forgotten: the call starts again behind it, with a buffer of twice the size.
   */
  function Lex(i: Input): Call
    decreases |i.text|
  {
    match LexPass(i)
    case Full(rest) =>
      PassShrinks(i);
      Lex(i.(text := rest, size := 2 * i.size))
    case Ended(l) => Call(l.kind, l.raw, Input(l.rest, l.mode, l.inComment, i.size))
  }

  // ----- every token makes progress

  /**
   The cursor stays inside the text and every call that returns neither the
   end of file nor an error makes progress: also when it starts again behind a
   full buffer, for the push-back of `-->` after an identifier and for the
   empty data token.
   */
  lemma {:induction false} LexProgress(i: Input)
    ensures var c := Lex(i);
            && |c.next.text| <= |i.text| && c.next.size >= i.size
            && (c.kind != TEof && c.kind != TError ==> Measure(c.next.text, c.next.mode) < Measure(i.text, i.mode))
    decreases |i.text|
  {
    hide LexPass;
    PassShrinks(i);
    match LexPass(i)
    case Full(rest) => LexProgress(i.(text := rest, size := 2 * i.size));
    case Ended(l) =>
  }

  // ----- what a call stores behind its buffer

  /** What one round of the loop stores from the token position on, terminators included. */
  function Stored(s: string, state: State): string
    requires s != ""
  {
    match state
    case Idle => if s[0] == '\"' || s[0] == '\'' then "" else [s[0]]
    case MStart => if s[0] in "/?" then [s[0], '\0'] else if s[0] == '!' then "!" else "\0"
    case Comment =>
      if "--" <= s then "--\0" else if "DOCTYPE" <= s then "DOCTYPE" else if "[CDATA[" <= s then "[CDATA[" else ""
    case MStop2 | TiStop => if s[0] == '>' then ">\0" else "\0"
    case CStop => if s[0] == '>' then ">\0" else [s[0]]
    case DashDash => [s[0]]
    case Ident => if EndsIdent(s[0]) then "\0" else [s[0]]
    case Eol => if s[0] == '\n' || s[0] == '\r' then [s[0]] else "\0"
    case Separ => if s[0] == ' ' || s[0] == '\t' then [s[0]] else "\0"
    case StringDouble => if s[0] == '\"' then "\0" else [s[0]]
    case StringSingle => if s[0] == '\'' then "\0" else [s[0]]
    case MStop1 | Equal => "\0"
  }

  lemma AfterFirst(s: string, pat: string)
    requires s != "" && pat != ""
    ensures pat <= s <==> s[0] == pat[0] && pat[1..] <= s[1..]
  {
    assert s == [s[0]] + s[1..] && pat == [pat[0]] + pat[1..];
  }

  lemma StoredByComment(s: string, tok: string, inComment: bool)
    requires s != ""
    ensures match CommentStep(s, tok, inComment)
            case Go(_, tok') => |tok'| == |tok| + |Stored(s, Comment)|
            case Out(l) => l.kind == TCdataStart || l.kind == TCdataStop ==> |l.raw| == |tok| + |Stored(s, Comment)|
  {
    AfterFirst(s, "--");
    AfterFirst(s, "DOCTYPE");
    AfterFirst(s, "[CDATA[");
    assert "--"[1..] == "-" && "DOCTYPE"[1..] == "OCTYPE" && "[CDATA["[1..] == "CDATA[";
  }

  /** A round that goes on stores what the token gains, and so does one that ends with the start of a CDATA section. */
  lemma StoredIsGained(s: string, state: State, tok: string, inComment: bool)
    requires s != ""
    ensures match NormalStep(s, state, tok, inComment)
            case Go(_, tok') => |tok'| == |tok| + |Stored(s, state)|
            case Out(l) => l.kind == TCdataStart || l.kind == TCdataStop ==> |l.raw| == |tok| + |Stored(s, state)|
  {
    hide StrLen, CommentStep;
    if state == Comment {
      StoredByComment(s, tok, inComment);
    }
  }

  /** The same in any mode. */
  function StoredIn(mode: Mode, s: string, state: State): string
    requires s != ""
  {
    match mode
    case Normal => Stored(s, state)
    case Data => if s[0] == '<' then "\0" else [s[0]]
    case Cdata => if "]]>" <= s then "" else [s[0]]
  }

  /**
   A round that the loop begins, with room for one more character, stores behind
   the buffer exactly at the end of a token of two or more characters, and then
   only in the last places.
   */
  lemma RoundLeavesBufferIff(s: string, state: State, at: nat, size: Size)
    requires s != "" && at < size
    ensures at + |Stored(s, state)| > size <==>
            || (at == size - 1 && state in {MStop2, TiStop, CStop} && s[0] == '>')
            || (at == size - 1 && state == MStart && s[0] in "/?")
            || (at >= size - 2 && state == Comment && "--" <= s)
            || (at >= size - 6 && state == Comment && ("DOCTYPE" <= s || "[CDATA[" <= s))
  {
    assert "--" <= s ==> s[0] == '-';
    assert "DOCTYPE" <= s ==> s[0] == 'D';
    assert "[CDATA[" <= s ==> s[0] == '[';
  }

  /** Some round of a pass stores behind the buffer. */
  predicate PassLeavesBuffer(s: string, state: State, tok: string, inComment: bool, size: Size)
    decreases |s|
  {
    && |tok| < size && s != ""
    && (|tok| + |Stored(s, state)| > size
        || match NormalStep(s, state, tok, inComment)
           case Go(state', tok') => PassLeavesBuffer(s[1..], state', tok', inComment, size)
           case Out(_) => false)
  }

  /** Some pass of a call does; in character data and CDATA sections none can. */
  predicate LeavesBuffer(i: Input)
    decreases |i.text|
  {
    || (i.mode == Normal && PassLeavesBuffer(i.text, Idle, "", i.inComment, i.size))
    || match LexPass(i)
       case Full(rest) =>
         PassShrinks(i);
         LeavesBuffer(i.(text := rest, size := 2 * i.size))
       case Ended(_) => false
  }

  /** A token that is as long as the buffer, or an identifier that was as long before `-->` was pushed back. */
  predicate EndsBehind(kind: Kind, raw: string, rest: string, size: Size) {
    match kind
    case TMStart2 | TTiStart | TMStop2 | TTiStop | TCStop => |raw| == size
    case TCStart => |raw| >= size
    case TDoctypeStart | TCdataStart => |raw| > size
    case TIdent => "-->" <= rest && |raw| + 3 == size
    case _ => false
  }

  ghost predicate StepEndsBehind(step: Step, at: nat, stored: string, size: Size) {
    match step
    case Go(_, _) => at + |stored| <= size
    case Out(l) => at + |stored| > size <==> EndsBehind(l.kind, l.raw, l.rest, size)
  }

  lemma CStopEndsBehind(n: nat, s: string, tok: string, inComment: bool, size: Size)
    requires s != "" && |tok| < size && Collected(n, s, CStop, tok)
    ensures StepEndsBehind(CStopStep(s, tok, inComment), |tok|, Stored(s, CStop), size)
  {
    hide StrLen;
    assert "-->" <= "-->" + s[1..];
  }

  lemma CommentEndsBehind(s: string, tok: string, inComment: bool, size: Size)
    requires s != "" && |tok| < size
    ensures StepEndsBehind(CommentStep(s, tok, inComment), |tok|, Stored(s, Comment), size)
  {
    AfterFirst(s, "--");
    AfterFirst(s, "DOCTYPE");
    AfterFirst(s, "[CDATA[");
    assert "--"[1..] == "-" && "DOCTYPE"[1..] == "OCTYPE" && "[CDATA["[1..] == "CDATA[";
  }

  lemma IdentEndsBehind(s: string, tok: string, inComment: bool, size: Size)
    requires s != "" && |tok| < size
    ensures StepEndsBehind(IdentStep(s, tok, inComment), |tok|, Stored(s, Ident), size)
  {
    assert "-->" <= s ==> s[0] == '-';
  }

  lemma OtherEndsBehind(s: string, state: State, tok: string, inComment: bool, size: Size)
    requires s != "" && |tok| < size && state !in {Comment, CStop, Ident}
    ensures StepEndsBehind(NormalStep(s, state, tok, inComment), |tok|, Stored(s, state), size)
  {
  }

  lemma RoundEndsBehind(n: nat, s: string, state: State, tok: string, inComment: bool, size: Size)
    requires s != "" && |tok| < size && Collected(n, s, state, tok)
    ensures StepEndsBehind(NormalStep(s, state, tok, inComment), |tok|, Stored(s, state), size)
  {
    hide CommentStep, CStopStep, IdentStep, Stored, StepEndsBehind, Collected;
    match state
    case Comment => CommentEndsBehind(s, tok, inComment, size);
    case CStop => CStopEndsBehind(n, s, tok, inComment, size);
    case Ident => IdentEndsBehind(s, tok, inComment, size);
    case _ => OtherEndsBehind(s, state, tok, inComment, size);
  }

  ghost predicate PassEndsBehind(pass: Pass, size: Size) {
    pass.Ended? && EndsBehind(pass.lexed.kind, pass.lexed.raw, pass.lexed.rest, size)
  }

  lemma NothingEndsBehind(state: State, tok: string, size: Size)
    ensures !EndsBehind(KindAtEnd(state), tok, "", size)
  {
  }

  lemma {:induction false} PassLeavesBufferIff(n: nat, s: string, state: State, tok: string, inComment: bool,
          size: Size)
    requires Collected(n, s, state, tok)
    ensures PassLeavesBuffer(s, state, tok, inComment, size)
       <==> PassEndsBehind(LexNormal(s, state, tok, inComment, size), size)
    decreases |s|
  {
    hide NormalStep, Collected, Stored, EndsBehind;
    if |tok| < size {
      if s == "" {
        NothingEndsBehind(state, tok, size);
      } else {
        StepKeeps(n, s, state, tok, inComment);
        RoundEndsBehind(n, s, state, tok, inComment, size);
        var step := NormalStep(s, state, tok, inComment);
        if step.Go? {
          PassLeavesBufferIff(n, s[1..], step.state, step.tok, inComment, size);
        }
      }
    }
  }

  lemma {:induction false} DataEndsInside(s: string, tok: string, inComment: bool, size: Size)
    ensures !PassEndsBehind(LexData(s, tok, inComment, size), size)
    ensures !PassEndsBehind(LexCdata(s, tok, inComment, size), size)
    decreases |s|
  {
    if |tok| < size && s != "" {
      DataEndsInside(s[1..], tok + [s[0]], inComment, size);
    }
  }

  /**
   A call stores behind its token buffer exactly when the token it returns is
   one whose end is stored with its last characters, and is as long as the
   buffer; for an identifier that ended in `-->`, with these three characters.
   */
  lemma {:induction false} LeavesBufferIff(i: Input)
    ensures var c := Lex(i); LeavesBuffer(i) <==> EndsBehind(c.kind, c.raw, c.next.text, c.next.size)
    decreases |i.text|
  {
    hide LexNormal, LexData, LexCdata, EndsBehind, PassLeavesBuffer;
    match i.mode {
      case Normal => PassLeavesBufferIff(|i.text|, i.text, Idle, "", i.inComment, i.size);
      case Data | Cdata => DataEndsInside(i.text, "", i.inComment, i.size);
    }
    PassShrinks(i);
    match LexPass(i)
    case Full(rest) => LeavesBufferIff(i.(text := rest, size := 2 * i.size));
    case Ended(l) =>
  }

  /** Past the end every call returns the end of file and changes nothing. */
  lemma EndOfFileIsStable(i: Input)
    requires i.text == ""
    ensures Lex(i) == Call(TEof, "", i)
  {
  }

  // ----- the token stream

  datatype Token = Token(kind: Kind, text: string)

  /** What the parser sees of a call; it does not look at the text of an error or of the end of file. */
  function TokenOf(c: Call): (t: Token)
    ensures t.kind == c.kind && NulFree(t.text)
  {
    Token(c.kind, if c.kind == TEof || c.kind == TError then "" else CStr(c.raw))
  }

  /**
   The tokens of all calls up to the end of file, which is not listed: after
   the last of them every call returns the end of file.  An error token is
   always last.
   */
  function Tokens(i: Input): seq<Token>
    decreases Measure(i.text, i.mode)
  {
    var c := Lex(i);
    if c.kind == TEof then []
    else if c.kind == TError then [Token(TError, "")]
    else
      LexProgress(i);
      [TokenOf(c)] + Tokens(c.next)
  }

  /** The tokens of the next `calls` calls; there are no more after an error. */
  function Fetched(i: Input, calls: nat): seq<Token>
    decreases calls
  {
    if calls == 0 then []
    else
      var c := Lex(i);
      [TokenOf(c)] + if c.kind == TError then [] else Fetched(c.next, calls - 1)
  }

  const TOKEN_SIZE: Size := 0x10000

  /** What the lexer reads when it starts on a text. */
  function Start(text: string): Input {
    Input(text, Normal, false, TOKEN_SIZE)
  }

  /** The token stream of a whole text. */
  function TokensOf(text: string): seq<Token> {
    Tokens(Start(text))
  }

  /** The tokens of `k` calls at the end of file. */
  function Eofs(k: nat): (ts: seq<Token>)
    ensures |ts| == k
  {
    seq(k, _ => Token(TEof, ""))
  }

  ghost predicate EofEnds(pass: Pass) {
    pass.Ended? && pass.lexed.kind == TEof ==> pass.lexed.rest == ""
  }

  lemma StepIsNotEof(s: string, state: State, tok: string, inComment: bool)
    requires s != ""
    ensures var step := NormalStep(s, state, tok, inComment); step.Out? ==> step.lexed.kind != TEof
  {
    hide StrLen, EndsIdent;
  }

  lemma {:induction false} EofEndsNormal(s: string, state: State, tok: string, inComment: bool, size: Size)
    ensures EofEnds(LexNormal(s, state, tok, inComment, size))
    decreases |s|
  {
    hide NormalStep;
    if |tok| < size && s != "" {
      StepIsNotEof(s, state, tok, inComment);
      var step := NormalStep(s, state, tok, inComment);
      if step.Go? {
        EofEndsNormal(s[1..], step.state, step.tok, inComment, size);
      }
    }
  }

  lemma {:induction false} EofEndsData(s: string, tok: string, inComment: bool, size: Size)
    ensures EofEnds(LexData(s, tok, inComment, size))
  {
    if |tok| < size && s != "" && s[0] != '<' {
      EofEndsData(s[1..], tok + [s[0]], inComment, size);
    }
  }

  lemma {:induction false} EofEndsCdata(s: string, tok: string, inComment: bool, size: Size)
    ensures EofEnds(LexCdata(s, tok, inComment, size))
  {
    if |tok| < size && s != "" && !("]]>" <= s) {
      EofEndsCdata(s[1..], tok + [s[0]], inComment, size);
    }
  }

  lemma {:induction false} EofEndsText(i: Input)
    requires Lex(i).kind == TEof
    ensures Lex(i).next.text == ""
    decreases |i.text|
  {
    hide LexNormal, LexData, LexCdata;
    match i.mode {
      case Normal => EofEndsNormal(i.text, Idle, "", i.inComment, i.size);
      case Data => EofEndsData(i.text, "", i.inComment, i.size);
      case Cdata => EofEndsCdata(i.text, "", i.inComment, i.size);
    }
    PassShrinks(i);
    match LexPass(i)
    case Full(rest) => EofEndsText(i.(text := rest, size := 2 * i.size));
    case Ended(l) =>
  }

  lemma TokensStep(i: Input)
    ensures var c := Lex(i);
            && (c.kind == TEof ==> Tokens(i) == [] && Tokens(c.next) == [] && c.next.text == "")
            && (c.kind == TError ==> Tokens(i) == [Token(TError, "")])
            && (c.kind != TEof && c.kind != TError ==> Tokens(i) == [TokenOf(c)] + Tokens(c.next))
  {
    hide Lex, CStr;
    var c := Lex(i);
    if c.kind == TEof {
      EofEndsText(i);
      EndOfFileIsStable(c.next);
    }
  }

  lemma {:induction false} EofIsFetched(i: Input, calls: nat)
    requires i.text == ""
    ensures Fetched(i, calls) == Eofs(calls)
    decreases calls
  {
    hide Lex, CStr;
    if calls > 0 {
      EndOfFileIsStable(i);
      EofIsFetched(i, calls - 1);
    }
  }

  predicate EndInError(ts: seq<Token>) {
    ts != [] && ts[|ts| - 1].kind == TError
  }

  /**
   What the next `calls` calls give: the tokens of the text and then, unless
   there was an error, the end of file for ever.
   */
  function Stream(ts: seq<Token>, calls: nat): seq<Token> {
    if calls <= |ts| then ts[..calls] else if EndInError(ts) then ts else ts + Eofs(calls - |ts|)
  }

  lemma StreamStep(t: Token, ts: seq<Token>, calls: nat)
    requires calls > 0 && t.kind != TError
    ensures Stream([t] + ts, calls) == [t] + Stream(ts, calls - 1)
  {
    hide Eofs;
    if calls > |ts| + 1 && !EndInError(ts) {
      assert [t] + (ts + Eofs(calls - 1 - |ts|)) == [t] + ts + Eofs(calls - 1 - |ts|);
    } else if calls <= |ts| + 1 {
      assert ([t] + ts)[..calls] == [t] + ts[..calls - 1];
    }
  }

  lemma FetchedStep(i: Input, calls: nat)
    requires calls > 0
    ensures var c := Lex(i);
            Fetched(i, calls) == if c.kind == TError then [TokenOf(c)] else [TokenOf(c)] + Fetched(c.next, calls - 1)
  {
    hide Lex, TokenOf;
  }

  lemma NothingFetched(i: Input)
    ensures Fetched(i, 0) == [] && Stream(Tokens(i), 0) == []
  {
    hide Tokens;
  }

  lemma EofsUnfold(k: nat)
    ensures Eofs(k + 1) == [Token(TEof, "")] + Eofs(k)
  {
  }

  lemma NoMoreTokens(c: Call, calls: nat)
    requires c.kind == TEof && calls > 0
    ensures TokenOf(c) == Token(TEof, "") && Stream([], calls) == Eofs(calls)
  {
  }

  lemma OnlyAnError(c: Call, calls: nat)
    requires c.kind == TError && calls > 0
    ensures [TokenOf(c)] == Stream([Token(TError, "")], calls)
  {
  }

  lemma {:induction false} FetchedTokens(i: Input, calls: nat)
    ensures Fetched(i, calls) == Stream(Tokens(i), calls)
    decreases calls
  {
    hide Lex, CStr, Eofs, Tokens, Fetched, Stream, TokenOf;
    var c := Lex(i);
    if calls == 0 {
      NothingFetched(i);
    } else {
      TokensStep(i);
      FetchedStep(i, calls);
      if c.kind == TEof {
        EofIsFetched(c.next, calls - 1);
        EofsUnfold(calls - 1);
        NoMoreTokens(c, calls);
      } else if c.kind == TError {
        OnlyAnError(c, calls);
      } else {
        FetchedTokens(c.next, calls - 1);
        StreamStep(TokenOf(c), Tokens(c.next), calls);
      }
    }
  }

  /** No token but the end of file itself has its kind. */
  lemma {:induction false} TokensHaveNoEof(i: Input)
    ensures forall t <- Tokens(i) :: t.kind != TEof
    decreases Measure(i.text, i.mode)
  {
    hide Lex, CStr;
    var c := Lex(i);
    TokensStep(i);
    if c.kind != TEof && c.kind != TError {
      LexProgress(i);
      TokensHaveNoEof(c.next);
    }
  }

  lemma OpenCommentPass(size: Size)
    ensures LexNormal("<!--", Idle, "", false, size) == Ended(Lexed(TCStart, "<!--", "", Normal, true))
  {
    var s := "<!--";
    assert s[1..] == "!--" && "!--"[1..] == "--" && "--"[1..] == "-" && "-"[1..] == "";
    assert LexNormal("--", Comment, "<!", false, size) == Ended(Lexed(TCStart, "<!--", "", Normal, true));
    assert LexNormal("!--", MStart, "<", false, size) == LexNormal("--", Comment, "<!", false, size);
  }

  /** A pass that ends with a token is the whole call. */
  lemma CallOfPass(i: Input, l: Lexed)
    requires LexPass(i) == Ended(l)
    ensures Lex(i) == Call(l.kind, l.raw, Input(l.rest, l.mode, l.inComment, i.size))
  {
    hide LexPass;
  }

  /** The comment start is the whole token stream of `<!--`. */
  lemma OpenCommentTokens()
    ensures TokensOf("<!--") == [Token(TCStart, "<!--")]
  {
    hide Lex, Tokens, LexNormal, NormalStep;
    var next := Input("", Normal, true, TOKEN_SIZE);
    OpenCommentPass(TOKEN_SIZE);
    CallOfPass(Start("<!--"), Lexed(TCStart, "<!--", "", Normal, true));
    TokensStep(Start("<!--"));
    TokensStep(next);
    EndOfFileIsStable(next);
    StrLenOfNulFree("<!--");
  }

  /** What follows `<!` at the start of a comment or document type. */
  predicate Declares(c: char) {
    c == '-' || c == 'D'
  }

  /** No comment and no document type starts in the text. */
  predicate Undeclared(s: string) {
    forall i :: 0 <= i < |s| - 2 && s[i] == '<' && s[i + 1] == '!' ==> !Declares(s[i + 2])
  }

  /** The token collected so far does not go on as a comment or document type. */
  predicate HarmlessState(s: string, state: State) {
    && (state == Comment && s != "" ==> !Declares(s[0]))
    && (state == MStart && |s| > 1 && s[0] == '!' ==> !Declares(s[1]))
  }

  ghost predicate StartsNothing(pass: Pass) {
    match pass
    case Full(rest) => Undeclared(rest)
    case Ended(l) => Undeclared(l.rest) && l.kind != TCStart && l.kind != TDoctypeStart
  }

  lemma UndeclaredStep(s: string, state: State, tok: string, inComment: bool)
    requires s != "" && Undeclared(s) && HarmlessState(s, state)
    ensures Undeclared(s[1..])
    ensures match NormalStep(s, state, tok, inComment)
            case Go(state', _) => HarmlessState(s[1..], state')
            case Out(l) => Undeclared(l.rest) && l.kind != TCStart && l.kind != TDoctypeStart
  {
    hide StrLen, EndsIdent;
  }

  lemma {:induction false} UndeclaredNormal(s: string, state: State, tok: string, inComment: bool, size: Size)
    requires Undeclared(s) && HarmlessState(s, state)
    ensures StartsNothing(LexNormal(s, state, tok, inComment, size))
    decreases |s|
  {
    hide NormalStep, Undeclared, HarmlessState;
    if |tok| < size && s != "" {
      UndeclaredStep(s, state, tok, inComment);
      var step := NormalStep(s, state, tok, inComment);
      if step.Go? {
        UndeclaredNormal(s[1..], step.state, step.tok, inComment, size);
      }
    }
  }

  lemma {:induction false} UndeclaredData(s: string, tok: string, inComment: bool, size: Size)
    requires Undeclared(s)
    ensures StartsNothing(LexData(s, tok, inComment, size)) && StartsNothing(LexCdata(s, tok, inComment, size))
    decreases |s|
  {
    if s != "" {
      UndeclaredData(s[1..], tok + [s[0]], inComment, size);
    }
  }

  lemma {:induction false} UndeclaredCall(i: Input)
    requires Undeclared(i.text)
    ensures Undeclared(Lex(i).next.text) && Lex(i).kind != TCStart && Lex(i).kind != TDoctypeStart
    decreases |i.text|
  {
    hide LexNormal, LexData, LexCdata, Undeclared;
    match i.mode {
      case Normal => UndeclaredNormal(i.text, Idle, "", i.inComment, i.size);
      case Data | Cdata => UndeclaredData(i.text, "", i.inComment, i.size);
    }
    PassShrinks(i);
    match LexPass(i)
    case Full(rest) => UndeclaredCall(i.(text := rest, size := 2 * i.size));
    case Ended(l) =>
  }

  /** Without `<!-` and `<!D` no token starts a comment or a document type. */
  lemma {:induction false} UndeclaredTokens(i: Input)
    requires Undeclared(i.text)
    ensures forall t <- Tokens(i) :: t.kind != TCStart && t.kind != TDoctypeStart
    decreases Measure(i.text, i.mode)
  {
    hide Lex, Undeclared, CStr;
    var c := Lex(i);
    UndeclaredCall(i);
    TokensStep(i);
    if c.kind != TEof && c.kind != TError {
      LexProgress(i);
      UndeclaredTokens(c.next);
    }
  }
}
