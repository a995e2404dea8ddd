/**
 The XML lexer as the imperative code it is (plparse/xmllexer.c:99-595): a
 structure whose fields the call updates character by character, and a token
 buffer that is filled by index and doubled when it is full, proved to do what
 `XmlLexer.Lex` says.
 */
module XmlLexerCode {
  import opened CText
  import opened XmlLexer

  /** Kinds whose token the C code leaves without a terminating NUL. */
  predicate Unterminated(kind: Kind) {
    kind in {TCdataStop, TCdataStart, TDoctypeStart, TError}
  }

  /**
   Room behind the `tok_size` bytes of the buffer: the C code stores the end of
   a few kinds of tokens without looking at the size, at most this far behind
   it, and exactly when `XmlLexer.LeavesBuffer` says so.
   */
  const SPARE := 8

  /** The token buffer and its size, which the C code passes by reference. */
  class Buffer {
    var tok: array<char>
    var size: Size

    constructor (size: Size)
      ensures Valid() && this.size == size && fresh(tok) && Clean()
    {
      this.size := size;
      tok := new char[size + SPARE](_ => '\0');
    }

    ghost predicate Valid()
      reads this
    {
      tok.Length == size + SPARE
    }

    /** Nothing has been stored behind the buffer. */
    ghost predicate Clean()
      reads this, tok
    {
      forall k :: size <= k < tok.Length ==> tok[k] == '\0'
    }

    /** `realloc` to twice the size; what was in the buffer is not used again. */
    method Double()
      requires Valid()
      modifies this
      ensures Valid() && size == 2 * old(size) && fresh(tok) && Clean()
    {
      var larger := new char[2 * size + SPARE](_ => '\0');
      forall i | 0 <= i < size {
        larger[i] := tok[i];
      }
      tok, size := larger, 2 * size;
    }
  }

  lemma LexUnfolds(i: Input)
    ensures match LexPass(i)
            case Full(rest) => Lex(i) == Lex(i.(text := rest, size := 2 * i.size))
            case Ended(l) => Lex(i) == Call(l.kind, l.raw, Input(l.rest, l.mode, l.inComment, i.size))
  {
    hide LexPass;
  }

  lemma FullPass(s: string, state: State, tok: string, inComment: bool, size: Size)
    requires |tok| >= size
    ensures LexNormal(s, state, tok, inComment, size) == Full(s)
    ensures LexData(s, tok, inComment, size) == Full(s) && LexCdata(s, tok, inComment, size) == Full(s)
  {
  }

  /** What `<!D` and `<![` come to. */
  lemma DeclarationForms(s: string, tok: string, inComment: bool)
    requires s != "" && (s[0] == 'D' || s[0] == '[')
    ensures var doctype := s[0] == 'D';
            var (rest, kind) := if doctype then ("OCTYPE", TDoctypeStart) else ("CDATA[", TCdataStart);
            var mode := if doctype then Normal else Cdata;
            if rest <= s[1..] then
              && Stored(s, Comment) == [s[0]] + rest
              && CommentStep(s, tok, inComment) == Out(Lexed(kind, tok + ([s[0]] + rest), s[1..][6..], mode, inComment))
            else
              && Stored(s, Comment) == ""
              && CommentStep(s, tok, inComment) == Out(Lexed(TError, tok, s[1..], Normal, inComment))
  {
    AfterFirst(s, "--");
    AfterFirst(s, "DOCTYPE");
    AfterFirst(s, "[CDATA[");
    assert "DOCTYPE"[1..] == "OCTYPE" && "[CDATA["[1..] == "CDATA[";
    assert ['D'] + "OCTYPE" == "DOCTYPE" && ['['] + "CDATA[" == "[CDATA[";
  }

  lemma CStopForms(s: string, tok: string, inComment: bool)
    requires s != "" && |tok| >= 2
    ensures Stored(s, CStop) == if s[0] == '>' then ">\0" else [s[0]]
    ensures CStopStep(s, tok, inComment) ==
            if s[0] != '>' then Go(Ident, tok + [s[0]])
            else if StrLen(tok + ">") != 3 then Out(Lexed(TIdent, tok[..|tok| - 2], "-->" + s[1..], Normal, inComment))
            else Out(Lexed(TCStop, tok + ">", s[1..], Normal, false))
  {
    hide StrLen;
  }

  class Lexer {
    const lexbuf: string
    var lexbufPos: nat
    var lexMode: Mode
    var inComment: bool

    constructor (buf: string)
      ensures lexbuf == buf && lexbufPos == 0 && lexMode == Normal && !inComment
    {
      lexbuf := buf;
      lexbufPos, lexMode, inComment := 0, Normal, false;
    }

    ghost predicate Valid()
      reads this
    {
      lexbufPos <= |lexbuf|
    }

    ghost function Rest(): string
      reads this
      requires Valid()
    {
      lexbuf[lexbufPos..]
    }

    /** The characters just passed and stored, as far as the state tells them. */
    ghost predicate Behind(state: State, tokPos: nat)
      reads this
      requires Valid()
    {
      && (state == DashDash ==> tokPos >= 1 && lexbufPos >= 1 && lexbuf[lexbufPos - 1] == '-')
      && (state == CStop ==>
            tokPos >= 2 && lexbufPos >= 2 && lexbuf[lexbufPos - 2] == '-' && lexbuf[lexbufPos - 1] == '-')
    }

    /** What is still to be read, with a token buffer of the given size. */
    ghost function Now(size: Size): Input
      reads this
      requires Valid()
    {
      Input(Rest(), lexMode, inComment, size)
    }

    /** There is room for one more character of the token. */
    ghost predicate Fits(tok: array<char>, tokPos: nat)
      reads this
    {
      Valid() && tokPos < tok.Length - SPARE
    }

    /** The object has taken the given step from a position followed by `rest`. */
    ghost predicate Took(step: Step, rest: string, tok: array<char>, ret: Option<Kind>, tokPos: nat, state: State)
      reads this, tok
      requires Valid()
    {
      match step
      case Go(state', tok') =>
        && ret == None && state == state'
        && tokPos <= tok.Length - SPARE && tok[..tokPos] == tok'
        && Rest() == rest && Behind(state, tokPos)
      case Out(l) => ret == Some(l.kind) && Returned(l, tok, tokPos)
    }

    /** The round has stored `stored` at the token position, and nothing behind it. */
    twostate predicate Wrote(tok: array<char>, tokPos: nat, stored: string)
      reads tok
    {
      && tokPos + |stored| <= tok.Length && tok[tokPos..tokPos + |stored|] == stored
      && forall k :: tokPos + |stored| <= k < tok.Length ==> tok[k] == old(tok[k])
    }

    /** What a finished call leaves in the token buffer and in the object. */
    ghost predicate Returned(l: Lexed, tok: array<char>, tokPos: nat)
      reads this, tok
      requires Valid()
    {
      && tokPos < tok.Length && tok[..tokPos] == l.raw
      && (!Unterminated(l.kind) ==> tok[tokPos] == '\0')
      && Rest() == l.rest && lexMode == l.mode && inComment == l.inComment
    }

    method IdleChar(tok: array<char>, tokPos: nat) returns (tokPos': nat, state': State)
      requires Fits(tok, tokPos) && lexbufPos < |lexbuf|
      modifies this`lexbufPos, tok
      ensures Valid()
      ensures Took(IdleStep(old(Rest())[0], old(tok[..tokPos]), inComment), old(Rest())[1..], tok, None, tokPos',
              state')
      ensures Wrote(tok, tokPos, Stored(old(Rest()), Idle))
    {
      var c := lexbuf[lexbufPos];
      tokPos' := tokPos;
      if c == '\"' {
        state' := StringDouble;
      } else if c == '\'' {
        state' := StringSingle;
      } else {
        state' := IdleState(c, inComment);
        tok[tokPos] := c;
        tokPos' := tokPos + 1;
      }
      lexbufPos := lexbufPos + 1;
    }

    method MStartChar(tok: array<char>, tokPos: nat) returns (ret: Option<Kind>, tokPos': nat, state': State)
      requires Fits(tok, tokPos) && lexbufPos < |lexbuf| && lexMode == Normal
      modifies this`lexbufPos, tok
      ensures Valid()
      ensures Took(MStartStep(old(Rest()), old(tok[..tokPos]), inComment), old(Rest())[1..], tok, ret, tokPos', state')
      ensures Wrote(tok, tokPos, Stored(old(Rest()), MStart))
    {
      var c := lexbuf[lexbufPos];
      ret, tokPos', state' := None, tokPos, MStart;
      if c == '/' || c == '!' || c == '?' {
        tok[tokPos] := c;
        lexbufPos := lexbufPos + 1;
        tokPos' := tokPos + 1;
        if c == '!' {
          state' := Comment;
        } else {
          tok[tokPos'] := '\0';
          ret := Some(if c == '/' then TMStart2 else TTiStart);
        }
      } else {
        tok[tokPos] := '\0';
        ret := Some(TMStart1);
      }
    }

    /** `strncmp (lexbuf + at, text, strlen (text)) == 0` */
    method LooksAt(at: nat, text: string) returns (b: bool)
      requires at <= |lexbuf|
      ensures b == (text <= lexbuf[at..])
    {
      b := at + |text| <= |lexbuf| && lexbuf[at..at + |text|] == text;
    }

    /** `strncpy (tok + at, text, strlen (text))` */
    method Store(tok: array<char>, at: nat, text: string)
      requires at + |text| <= tok.Length
      modifies tok
      ensures tok[..at + |text|] == old(tok[..at]) + text
      ensures forall k :: at + |text| <= k < tok.Length ==> tok[k] == old(tok[k])
    {
      forall i | 0 <= i < |text| {
        tok[at + i] := text[i];
      }
    }

    /** `<!-`, and `<!--` when another `-` follows. */
    method CommentDash(tok: array<char>, tokPos: nat) returns (ret: Option<Kind>, tokPos': nat)
      requires Fits(tok, tokPos) && lexbufPos < |lexbuf| && lexbuf[lexbufPos] == '-' && lexMode == Normal
      modifies this`lexbufPos, this`inComment, tok
      ensures Valid()
      ensures Took(CommentStep(old(Rest()), old(tok[..tokPos]), old(inComment)), old(Rest())[1..], tok, ret, tokPos',
              Comment)
      ensures ret == None ==> inComment == old(inComment)
      ensures Wrote(tok, tokPos, Stored(old(Rest()), Comment))
    {
      ret, tokPos' := None, tokPos;
      lexbufPos := lexbufPos + 1;
      var another := LooksAt(lexbufPos, "-");
      if another {
        lexbufPos := lexbufPos + 1;
        Store(tok, tokPos, "--");
        tokPos' := tokPos + 2;
        tok[tokPos'] := '\0';
        inComment := true;
        ret := Some(TCStart);
      }
    }

    /** `<!D`, which has to go on as a document type. */
    method CommentDoctype(tok: array<char>, tokPos: nat) returns (kind: Kind, tokPos': nat)
      requires Fits(tok, tokPos) && lexbufPos < |lexbuf| && lexbuf[lexbufPos] == 'D' && lexMode == Normal
      modifies this`lexbufPos, tok
      ensures Valid()
      ensures Took(CommentStep(old(Rest()), old(tok[..tokPos]), inComment), old(Rest())[1..], tok, Some(kind),
              tokPos', Comment)
      ensures Wrote(tok, tokPos, Stored(old(Rest()), Comment))
    {
      hide CommentStep, Stored;
      DeclarationForms(Rest(), tok[..tokPos], inComment);
      assert ['D'] + "OCTYPE" == "DOCTYPE";
      lexbufPos := lexbufPos + 1;
      var doctype := LooksAt(lexbufPos, "OCTYPE");
      if !doctype {
        return TError, tokPos;
      }
      Store(tok, tokPos, "DOCTYPE");
      lexbufPos := lexbufPos + 6;
      return TDoctypeStart, tokPos + 7;
    }

    /** `<![`, which has to go on as a CDATA section. */
    method CommentCdata(tok: array<char>, tokPos: nat) returns (kind: Kind, tokPos': nat)
      requires Fits(tok, tokPos) && lexbufPos < |lexbuf| && lexbuf[lexbufPos] == '[' && lexMode == Normal
      modifies this`lexbufPos, this`lexMode, tok
      ensures Valid()
      ensures Took(CommentStep(old(Rest()), old(tok[..tokPos]), inComment), old(Rest())[1..], tok, Some(kind),
              tokPos', Comment)
      ensures Wrote(tok, tokPos, Stored(old(Rest()), Comment))
    {
      hide CommentStep, Stored;
      DeclarationForms(Rest(), tok[..tokPos], inComment);
      assert ['['] + "CDATA[" == "[CDATA[";
      lexbufPos := lexbufPos + 1;
      var cdata := LooksAt(lexbufPos, "CDATA[");
      if !cdata {
        return TError, tokPos;
      }
      Store(tok, tokPos, "[CDATA[");
      lexbufPos := lexbufPos + 6;
      lexMode := Cdata;
      return TCdataStart, tokPos + 7;
    }

    /** After `<!`. */
    method CommentChar(tok: array<char>, tokPos: nat) returns (ret: Option<Kind>, tokPos': nat)
      requires Fits(tok, tokPos) && lexbufPos < |lexbuf| && lexMode == Normal
      modifies this, tok
      ensures Valid()
      ensures Took(CommentStep(old(Rest()), old(tok[..tokPos]), old(inComment)), old(Rest())[1..], tok, ret, tokPos',
              Comment)
      ensures ret == None ==> lexMode == Normal && inComment == old(inComment)
      ensures Wrote(tok, tokPos, Stored(old(Rest()), Comment))
    {
      ret, tokPos' := Some(TError), tokPos;
      match lexbuf[lexbufPos]
      case '-' => ret, tokPos' := CommentDash(tok, tokPos);
      case 'D' =>
        var kind;
        kind, tokPos' := CommentDoctype(tok, tokPos);
        ret := Some(kind);
      case '[' =>
        var kind;
        kind, tokPos' := CommentCdata(tok, tokPos);
        ret := Some(kind);
      case _ =>
    }

    /** `-->` is read again, and the token ends in front of it. */
    method PushBack(tok: array<char>, tokPos: nat) returns (tokPos': nat)
      requires 3 <= tokPos <= tok.Length && 3 <= lexbufPos <= |lexbuf|
      requires lexbuf[lexbufPos - 3] == '-' && lexbuf[lexbufPos - 2] == '-' && lexbuf[lexbufPos - 1] == '>'
      modifies this`lexbufPos, tok
      ensures Valid() && Rest() == "-->" + old(Rest())
      ensures tokPos' == tokPos - 3 && tok[tokPos'] == '\0'
      ensures forall k :: 0 <= k < tokPos' ==> tok[k] == old(tok[k])
      ensures forall k :: tokPos - 1 <= k < tok.Length ==> tok[k] == old(tok[k])
    {
      tokPos' := tokPos - 3;
      tok[tokPos'] := '\0';
      lexbufPos := lexbufPos - 3;
      assert Rest() == [lexbuf[lexbufPos], lexbuf[lexbufPos + 1], lexbuf[lexbufPos + 2]] + old(Rest());
    }

    /** The `>` is stored and passed. */
    method CStopMark(tok: array<char>, tokPos: nat) returns (tokPos': nat)
      requires Fits(tok, tokPos) && lexbufPos < |lexbuf| && lexbuf[lexbufPos] == '>'
      modifies this`lexbufPos, tok
      ensures Valid() && lexbufPos == old(lexbufPos) + 1 && Rest() == old(Rest())[1..]
      ensures tokPos' == tokPos + 1 && tok[..tokPos'] == old(tok[..tokPos]) + ">" && Wrote(tok, tokPos, ">\0")
    {
      tokPos' := tokPos + 1;
      tok[tokPos] := '>';
      lexbufPos := lexbufPos + 1;
      tok[tokPos'] := '\0';
    }

    /** A `>` behind `--`: the end of the comment, or of an identifier with `-->` pushed back. */
    method CStopEnd(tok: array<char>, tokPos: nat) returns (kind: Kind, tokPos': nat)
      requires Fits(tok, tokPos) && lexbufPos < |lexbuf| && lexMode == Normal && Behind(CStop, tokPos)
      requires lexbuf[lexbufPos] == '>'
      modifies this`lexbufPos, this`inComment, tok
      ensures Valid()
      ensures var (before, rest) := (old(tok[..tokPos]), old(Rest()));
              var l := if StrLen(before + ">") == 3 then Lexed(TCStop, before + ">", rest[1..], Normal, false)
                       else Lexed(TIdent, before[..tokPos - 2], "-->" + rest[1..], Normal, old(inComment));
              kind == l.kind && Returned(l, tok, tokPos')
      ensures Wrote(tok, tokPos, ">\0")
    {
      hide StrLen;
      ghost var before := tok[..tokPos];
      tokPos' := CStopMark(tok, tokPos);
      if StrLen(tok[..tokPos']) == 3 {
        inComment := false;
        return TCStop, tokPos';
      }
      tokPos' := PushBack(tok, tokPos');
      kind := TIdent;
      assert tok[..tokPos'] == before[..tokPos - 2];
    }

    method CStopChar(tok: array<char>, tokPos: nat) returns (ret: Option<Kind>, tokPos': nat, state': State)
      requires Fits(tok, tokPos) && lexbufPos < |lexbuf| && lexMode == Normal && Behind(CStop, tokPos)
      modifies this`lexbufPos, this`inComment, tok
      ensures Valid()
      ensures Took(CStopStep(old(Rest()), old(tok[..tokPos]), old(inComment)), old(Rest())[1..], tok, ret, tokPos',
              state')
      ensures ret == None ==> inComment == old(inComment)
      ensures Wrote(tok, tokPos, Stored(old(Rest()), CStop))
    {
      hide StrLen, CStopStep, Stored;
      CStopForms(Rest(), tok[..tokPos], inComment);
      var c := lexbuf[lexbufPos];
      if c == '>' {
        var kind;
        kind, tokPos' := CStopEnd(tok, tokPos);
        return Some(kind), tokPos', CStop;
      }
      tok[tokPos] := c;
      lexbufPos := lexbufPos + 1;
      return None, tokPos + 1, Ident;
    }

    /** `--` so far, or an identifier: one more character, or its end. */
    method IdentChar(tok: array<char>, tokPos: nat, state: State) returns (ret: Option<Kind>, tokPos': nat,
            state': State)
      requires Fits(tok, tokPos) && lexbufPos < |lexbuf| && lexMode == Normal && (state == DashDash || state == Ident)
      requires Behind(state, tokPos)
      modifies this`lexbufPos, tok
      ensures Valid()
      ensures Took(NormalStep(old(Rest()), state, old(tok[..tokPos]), inComment), old(Rest())[1..], tok, ret, tokPos',
              state')
      ensures Wrote(tok, tokPos, Stored(old(Rest()), state))
    {
      var c := lexbuf[lexbufPos];
      ret, tokPos', state' := None, tokPos, Ident;
      if state == Ident && EndsIdent(c) {
        tok[tokPos] := '\0';
        ret := Some(TIdent);
      } else {
        tok[tokPos] := c;
        tokPos' := tokPos + 1;
        lexbufPos := lexbufPos + 1;
        if c == '-' {
          state' := if state == DashDash then CStop else DashDash;
        } else if state == Ident && c == '?' {
          state' := TiStop;
        }
      }
    }

    /** The characters that go on with a run or a string. */
    method RunChar(tok: array<char>, tokPos: nat, state: State) returns (ret: Option<Kind>, tokPos': nat, state': State)
      requires Fits(tok, tokPos) && lexbufPos < |lexbuf| && lexMode == Normal
      requires state in {Eol, Separ, StringDouble, StringSingle}
      modifies this`lexbufPos, tok
      ensures Valid()
      ensures Took(PlainStep(old(Rest()), state, old(tok[..tokPos]), inComment), old(Rest())[1..], tok, ret, tokPos',
              state')
      ensures Wrote(tok, tokPos, Stored(old(Rest()), state))
    {
      var c := lexbuf[lexbufPos];
      ret, tokPos', state' := None, tokPos, state;
      var quote := (state == StringDouble && c == '\"') || (state == StringSingle && c == '\'');
      var run := (state == Eol && (c == '\n' || c == '\r')) || (state == Separ && (c == ' ' || c == '\t'));
      if quote {
        tok[tokPos] := '\0';
        lexbufPos := lexbufPos + 1;
        ret := Some(TString);
      } else if run || state == StringDouble || state == StringSingle {
        tok[tokPos] := c;
        tokPos' := tokPos + 1;
        lexbufPos := lexbufPos + 1;
      } else {
        tok[tokPos] := '\0';
        ret := Some(if state == Eol then TEol else TSepar);
      }
    }

    /** The states in which the next character ends the token. */
    method StopChar(tok: array<char>, tokPos: nat, state: State) returns (ret: Option<Kind>, tokPos': nat)
      requires Fits(tok, tokPos) && lexbufPos < |lexbuf| && lexMode == Normal
      requires state in {MStop1, MStop2, TiStop, Equal}
      modifies this`lexbufPos, this`lexMode, tok
      ensures Valid()
      ensures Took(PlainStep(old(Rest()), state, old(tok[..tokPos]), inComment), old(Rest())[1..], tok, ret, tokPos',
              state)
      ensures ret.Some?
      ensures Wrote(tok, tokPos, Stored(old(Rest()), state))
    {
      tokPos' := tokPos;
      if state == Equal {
        ret := Some(TEqual);
      } else if state == MStop1 {
        ret := Some(TMStop1);
        lexMode := if inComment then Normal else Data;
      } else if lexbuf[lexbufPos] == '>' {
        tok[tokPos] := '>';
        lexbufPos := lexbufPos + 1;
        tokPos' := tokPos + 1;
        lexMode := if inComment then Normal else Data;
        ret := Some(if state == MStop2 then TMStop2 else TTiStop);
      } else {
        ret := Some(TError);
      }
      tok[tokPos'] := '\0';
    }

    /** The round has stored what the token has gained, and no terminator. */
    predicate EndsWithStored(ret: Option<Kind>) {
      ret == None || ret == Some(TCdataStart) || ret == Some(TCdataStop)
    }

    lemma TookLength(step: Step, rest: string, tok: array<char>, ret: Option<Kind>, tokPos: nat, state: State)
      requires Valid() && Took(step, rest, tok, ret, tokPos, state)
      ensures tokPos == match step case Go(_, tok') => |tok'| case Out(l) => |l.raw|
      ensures ret == match step case Go(_, _) => None case Out(l) => Some(l.kind)
    {
    }

    /** One round of the loop in ordinary markup. */
    method NormalChar(tok: array<char>, tokPos: nat, state: State) returns (ret: Option<Kind>, tokPos': nat,
            state': State)
      requires Fits(tok, tokPos) && lexbufPos < |lexbuf| && lexMode == Normal && Behind(state, tokPos)
      modifies this, tok
      ensures Valid()
      ensures Took(NormalStep(old(Rest()), state, old(tok[..tokPos]), old(inComment)), old(Rest())[1..], tok, ret,
              tokPos', state')
      ensures ret == None <==> NormalStep(old(Rest()), state, old(tok[..tokPos]), old(inComment)).Go?
      ensures ret == None ==> lexMode == Normal && inComment == old(inComment)
      ensures Wrote(tok, tokPos, Stored(old(Rest()), state))
      ensures EndsWithStored(ret) ==> tokPos' == tokPos + |Stored(old(Rest()), state)|
    {
      hide IdleStep, MStartStep, CommentStep, CStopStep, IdentStep, PlainStep, Returned, Stored;
      StoredIsGained(Rest(), state, tok[..tokPos], inComment);
      ghost var step := NormalStep(Rest(), state, tok[..tokPos], inComment);
      ret := None;
      match state {
        case Idle => tokPos', state' := IdleChar(tok, tokPos);
        case MStart => ret, tokPos', state' := MStartChar(tok, tokPos);
        case Comment =>
          ret, tokPos' := CommentChar(tok, tokPos);
          state' := Comment;
        case CStop => ret, tokPos', state' := CStopChar(tok, tokPos);
        case DashDash | Ident => ret, tokPos', state' := IdentChar(tok, tokPos, state);
        case Eol | Separ | StringDouble | StringSingle => ret, tokPos', state' := RunChar(tok, tokPos, state);
        case MStop1 | MStop2 | TiStop | Equal =>
          ret, tokPos' := StopChar(tok, tokPos, state);
          state' := state;
      }
      TookLength(step, old(Rest())[1..], tok, ret, tokPos', state');
    }

    /** One round of the loop in character data or a CDATA section. */
    method DataChar(tok: array<char>, tokPos: nat) returns (ret: Option<Kind>, tokPos': nat)
      requires Fits(tok, tokPos) && lexbufPos < |lexbuf| && lexMode != Normal
      modifies this`lexbufPos, this`lexMode, tok
      ensures Valid()
      ensures ret == None ==>
              && lexMode == old(lexMode) && lexbufPos == old(lexbufPos) + 1 && tokPos' == tokPos + 1
              && tok[..tokPos'] == old(tok[..tokPos]) + [lexbuf[old(lexbufPos)]]
              && (if lexMode == Data then lexbuf[old(lexbufPos)] != '<' else !("]]>" <= old(Rest())))
      ensures ret.Some? ==>
              && (if old(lexMode) == Data then lexbuf[old(lexbufPos)] == '<' else "]]>" <= old(Rest()))
              && var (s, raw) := (old(Rest()), old(tok[..tokPos]));
                 var l := if old(lexMode) == Data then Lexed(TData, raw, s, Normal, inComment)
                          else Lexed(TCdataStop, raw, s[3..], Data, inComment);
                 ret == Some(l.kind) && Returned(l, tok, tokPos')
      ensures Wrote(tok, tokPos, StoredIn(old(lexMode), old(Rest()), Idle))
      ensures EndsWithStored(ret) ==> tokPos' == tokPos + |StoredIn(old(lexMode), old(Rest()), Idle)|
    {
      var c := lexbuf[lexbufPos];
      ret, tokPos' := None, tokPos;
      var cdataEnd := LooksAt(lexbufPos, "]]>");
      if lexMode == Data && c == '<' {
        tok[tokPos] := '\0';
        lexMode := Normal;
        ret := Some(TData);
      } else if lexMode == Cdata && cdataEnd {
        lexbufPos := lexbufPos + 3;
        lexMode := Data;
        ret := Some(TCdataStop);
      } else {
        tok[tokPos] := c;
        tokPos' := tokPos + 1;
        lexbufPos := lexbufPos + 1;
      }
    }

    /** The rest of a pass from the middle of a token. */
    ghost function Ahead(state: State, tok: array<char>, tokPos: nat): Pass
      reads this, tok
      requires Valid() && tok.Length >= SPARE + 16 && tokPos <= tok.Length
    {
      var size: Size := tok.Length - SPARE;
      match lexMode
      case Normal => LexNormal(Rest(), state, tok[..tokPos], inComment, size)
      case Data => LexData(Rest(), tok[..tokPos], inComment, size)
      case Cdata => LexCdata(Rest(), tok[..tokPos], inComment, size)
    }

    /** The rest of the pass stores behind the buffer. */
    ghost predicate Leaves(state: State, tok: array<char>, tokPos: nat)
      reads this, tok
      requires Valid() && tok.Length >= SPARE + 16 && tokPos <= tok.Length
    {
      lexMode == Normal && PassLeavesBuffer(Rest(), state, tok[..tokPos], inComment, tok.Length - SPARE)
    }

    /** One round of the loop. */
    method OneChar(tok: array<char>, tokPos: nat, state: State) returns (ret: Option<Kind>, tokPos': nat, state': State)
      requires tok.Length >= SPARE + 16
      requires Fits(tok, tokPos) && lexbufPos < |lexbuf| && Behind(state, tokPos)
               && (lexMode != Normal ==> state == Idle)
      modifies this, tok
      ensures Valid()
      ensures ret == None ==>
              && tokPos' <= tok.Length - SPARE && Behind(state', tokPos') && (lexMode != Normal ==> state' == Idle)
              && lexbufPos == old(lexbufPos) + 1 && lexMode == old(lexMode) && inComment == old(inComment)
              && Ahead(state', tok, tokPos') == old(Ahead(state, tok, tokPos))
      ensures ret.Some? ==>
              var pass := old(Ahead(state, tok, tokPos));
              pass.Ended? && ret == Some(pass.lexed.kind) && Returned(pass.lexed, tok, tokPos')
      ensures EndsWithStored(ret) ==> tokPos' == tokPos + |StoredIn(old(lexMode), old(Rest()), state)|
      ensures var stored := StoredIn(old(lexMode), old(Rest()), state);
              && Wrote(tok, tokPos, stored)
              && (old(Leaves(state, tok, tokPos))
                  <==> tokPos + |stored| > tok.Length - SPARE || (ret == None && Leaves(state', tok, tokPos')))
    {
      hide NormalStep, Returned, Stored;
      ghost var rest := Rest();
      if lexMode == Normal {
        ret, tokPos', state' := NormalChar(tok, tokPos, state);
        assert ret == None ==> |Rest()| == |rest| - 1;
      } else {
        ret, tokPos' := DataChar(tok, tokPos);
        state' := Idle;
        assert ret == None ==> Rest() == rest[1..] && rest[0] == lexbuf[old(lexbufPos)];
      }
    }

    /** The code after the loop: the current token is terminated. */
    method AtEnd(tok: array<char>, tokPos: nat, state: State) returns (kind: Kind)
      requires tok.Length >= SPARE + 16
      requires Fits(tok, tokPos) && lexbufPos == |lexbuf| && (lexMode != Normal ==> state == Idle)
      modifies tok
      ensures var pass := old(Ahead(state, tok, tokPos));
              pass.Ended? && kind == pass.lexed.kind && Returned(pass.lexed, tok, tokPos)
      ensures Wrote(tok, tokPos, "\0") && !EndsWithStored(Some(kind))
    {
      tok[tokPos] := '\0';
      kind := KindAtEnd(state);
    }

    /** `lexer_get_token_d_r`, with a call of itself when the buffer is full. */
    method GetToken(buffer: Buffer) returns (kind: Kind, len: nat)
      requires Valid() && buffer.Valid()
      modifies this, buffer, buffer.tok
      ensures Valid() && buffer.Valid() && (buffer.tok == old(buffer.tok) || fresh(buffer.tok))
      ensures var c := Lex(old(Now(buffer.size)));
              && kind == c.kind && Now(buffer.size) == c.next
              && len < buffer.tok.Length && buffer.tok[..len] == c.raw
              && (!Unterminated(kind) ==> buffer.tok[len] == '\0')
      ensures old(buffer.Clean()) && !LeavesBuffer(old(Now(buffer.size))) ==> buffer.Clean()
      ensures buffer.size == old(buffer.size) ==> buffer.tok == old(buffer.tok)
      ensures EndsWithStored(Some(kind)) && buffer.tok == old(buffer.tok) ==>
                forall k :: len <= k < buffer.tok.Length ==> buffer.tok[k] == old(buffer.tok[k])
      decreases |lexbuf| - lexbufPos
    {
      hide LexNormal, LexData, LexCdata, Lex, PassLeavesBuffer, StoredIn;
      var tok, state := buffer.tok, Idle;
      ghost var i := Now(buffer.size);
      ghost var pass := LexPass(i);
      ghost var inside := buffer.Clean() && !LeavesBuffer(i);
      PassShrinks(i);
      LexUnfolds(i);
      len := 0;
      while len < buffer.size && lexbufPos < |lexbuf|
        invariant buffer.Valid() && buffer.tok == tok && buffer.size == i.size
        invariant Valid() && len <= buffer.size && Behind(state, len)
        invariant lexMode == i.mode && inComment == i.inComment && (lexMode != Normal ==> state == Idle)
        invariant pass == Ahead(state, tok, len)
        invariant inside ==> buffer.Clean() && !Leaves(state, tok, len)
        invariant forall k :: len <= k < tok.Length ==> tok[k] == old(buffer.tok[k])
        decreases |lexbuf| - lexbufPos
      {
        var ret;
        ret, len, state := OneChar(tok, len, state);
        if ret.Some? {
          return ret.value, len;
        }
      }
      if len >= buffer.size {
        FullPass(Rest(), state, tok[..len], inComment, buffer.size);
        assert pass == Full(Rest());
        buffer.Double();
        LexProgress(Now(buffer.size));
        kind, len := GetToken(buffer);
      } else {
        kind := AtEnd(tok, len, state);
      }
    }
  }
}
