/**
 The tree builder as the imperative code it is (plparse/xmlparser.c:205-696):
 a state-variable loop over a lexer object that calls itself for every
 opened tag, proved to compute `XmlBuilder.GetNode` of the token stream.
 */
module XmlParser {
  import opened CText
  import opened XmlTree
  import opened L = XmlLexer
  import opened XmlLexerCode
  import opened XmlBuilder
  import Entities

  /** The local variables of one activation, together with the node it fills (`current_node`). */
  class Frame {
    var state: ParserState
    var nodeName: string
    var propertyName: string
    var properties: seq<Prop>
    var retval: int
    var bypassGetToken: bool
    ghost var closing: string
    var data: Option<string>
    var child: seq<Node>

    constructor ()
      ensures Level() == FRESH && retval == 0 && !bypassGetToken
    {
      state, nodeName, propertyName, properties, closing := AtIdle, "", "", [], "";
      retval, bypassGetToken := 0, false;
      data, child := None, [];
    }

    ghost function Level(): Level
      reads this
    {
      XmlBuilder.Level(state, nodeName, propertyName, properties, closing, Content(data, child))
    }

    /** A state has dealt with a token, which found the activation as it was `before`. */
    ghost predicate Did(before: Level, ok: bool, cfg: Config, names: seq<string>, t: Token)
      reads this
    {
      var act := Act1(cfg, names, before, t);
      if !ok then act == Fail && Level().node == before.node
      else if bypassGetToken then Act1(cfg, names, Level(), t) == act && Level().node == before.node
      else act == Stay(Level())
    }

    /** `xml_parser_append_text` */
    method AppendText(text: string, multiText: bool)
      modifies this`data, this`child
      ensures Content(data, child) == XmlTree.AppendText(old(Content(data, child)), text, multiText)
    {
      if text == "" {
        return;
      }
      if multiText && child != [] {
        var last := child[|child| - 1];
        if last.Text? {
          child := child[..|child| - 1] + [Text(last.text + text)];
        } else {
          child := child + [Text(text)];
        }
      } else if data.Some? {
        data := Some(data.value + text);
      } else {
        var trimmed := SkipSpaces(text);
        if trimmed != "" {
          data := Some(trimmed);
        }
      }
    }

    method DecodeToken(text: string) returns (decoded: string)
      requires NulFree(text)
      ensures decoded == Entities.Decode(text)
    {
      var buf, n := Entities.DecodeEntities(text);
      decoded := buf[..n];
    }

    method StepIdle(cfg: Config, ghost names: seq<string>, t: Token) returns (ok: bool)
      requires state == AtIdle && t.kind != TEof && !bypassGetToken && NulFree(t.text)
      modifies this`state, this`data, this`child
      ensures Did(old(Level()), ok, cfg, names, t)
      ensures state != AtTagTerm
    {
      ok := true;
      match t.kind
      case TEol | TSepar =>
      case TMStart1 => state := AtNode;
      case TMStart2 => state := AtNodeClose;
      case TCStart => state := AtComment;
      case TTiStart => state := AtQNode;
      case TDoctypeStart => state := AtDoctype;
      case TCdataStart => state := AtCdata;
      case TData =>
        var decoded := DecodeToken(t.text);
        AppendText(decoded, cfg.multiText);
      case _ => ok := false;
    }

    method StepNode(cfg: Config, ghost names: seq<string>, t: Token) returns (ok: bool)
      requires (state == AtNode || state == AtQNode) && !bypassGetToken
      modifies this`state, this`nodeName, this`properties
      ensures Did(old(Level()), ok, cfg, names, t)
      ensures state != AtTagTerm
    {
      if t.kind != TIdent {
        return false;
      }
      properties := [];
      var tok := Fold(cfg, t.text);
      if state == AtQNode {
        nodeName := "?" + tok;
        state := AtQAttribute;
      } else {
        nodeName := tok;
        state := AtAttribute;
      }
      return true;
    }

    /** The attribute states, apart from the `>` that opens a subtree. */
    method StepAttribute(cfg: Config, ghost names: seq<string>, t: Token) returns (ok: bool)
      requires state == AtAttribute || state == AtQAttribute
      requires !bypassGetToken && !(state == AtAttribute && t.kind == TMStop1)
      modifies this`state, this`propertyName, this`child
      ensures Did(old(Level()), ok, cfg, names, t)
      ensures state != AtTagTerm
    {
      if t.kind == TEol || t.kind == TSepar {
        return true;
      }
      if t.kind == (if state == AtAttribute then TMStop2 else TTiStop) {
        child := child + [Element(nodeName, None, properties, [])];
        state := AtIdle;
        return true;
      }
      if t.kind == TIdent {
        propertyName := Fold(cfg, t.text);
        state := if state == AtAttribute then AtAttributeEquals else AtQAttributeEquals;
        return true;
      }
      return false;
    }

    method StepEquals(cfg: Config, ghost names: seq<string>, t: Token) returns (ok: bool)
      requires (state == AtAttributeEquals || state == AtQAttributeEquals) && !bypassGetToken
      modifies this`state, this`properties, this`bypassGetToken
      ensures Did(old(Level()), ok, cfg, names, t)
      ensures state != AtTagTerm
      ensures bypassGetToken ==> state == AtAttribute || state == AtQAttribute
    {
      hide AttributeAct, QAttributeAct;
      var plain := state == AtAttributeEquals;
      ok := true;
      match t.kind
      case TEol | TSepar =>
      case TEqual => state := if plain then AtString else AtQString;
      case TIdent =>
        bypassGetToken := true;
        state := if plain then AtAttribute else AtQAttribute;
      case TMStop1 | TTiStop =>
        if t.kind == (if plain then TMStop1 else TTiStop) {
          properties := properties + [Prop(propertyName, None)];
          bypassGetToken := true;
          state := if plain then AtAttribute else AtQAttribute;
        } else {
          ok := false;
        }
      case _ => ok := false;
    }

    method StepString(cfg: Config, ghost names: seq<string>, t: Token) returns (ok: bool)
      requires (state == AtString || state == AtQString) && !bypassGetToken && NulFree(t.text)
      modifies this`state, this`properties
      ensures Did(old(Level()), ok, cfg, names, t)
      ensures state != AtTagTerm
    {
      if t.kind == TEol || t.kind == TSepar {
        return true;
      }
      if t.kind == TString || t.kind == TIdent {
        var value := DecodeToken(t.text);
        properties := properties + [Prop(propertyName, Some(value))];
        state := if state == AtString then AtAttribute else AtQAttribute;
        return true;
      }
      return false;
    }

    /** The search through the names of the open tags, from the activation's own outwards. */
    method StepNodeClose(cfg: Config, rootNames: array<string>, rec: nat, t: Token) returns (ok: bool)
      requires rec < rootNames.Length
      requires state == AtNodeClose && !bypassGetToken && retval == 0
      modifies this`state, this`retval, this`closing
      ensures Did(old(Level()), ok, cfg, rootNames[..rec + 1], t)
      ensures state == AtTagTerm ==> retval == CloseCode(rec + 1, CloseIndex(rootNames[..rec + 1], closing))
      ensures state != AtTagTerm ==> retval == 0
    {
      ghost var names := rootNames[..rec + 1];
      if t.kind != TIdent {
        return false;
      }
      var tok := Fold(cfg, t.text);
      var r := rec;
      if tok != rootNames[rec] && !cfg.relaxed {
        assert names[rec] == rootNames[rec];
        return false;
      }
      while r >= 0 && tok != rootNames[r]
        invariant -1 <= r <= rec
        invariant forall i :: r < i <= rec ==> names[i] != tok
      {
        r := r - 1;
      }
      if r < 0 {
        state := AtTagTermIgnore;
      } else {
        assert names[r] == tok;
        retval := if r == rec then 0 else r - rec - 1;
        closing := tok;
        state := AtTagTerm;
      }
      return true;
    }

    /** The states that wait for one closing token, apart from the `>` that ends the activation. */
    method StepSkip(cfg: Config, ghost names: seq<string>, t: Token) returns (ok: bool)
      requires state in {AtTagTerm, AtTagTermIgnore, AtComment, AtDoctype, AtCdata}
      requires !bypassGetToken && !(state == AtTagTerm && t.kind == TMStop1)
      modifies this`state, this`data, this`child
      ensures Did(old(Level()), ok, cfg, names, t)
      ensures ok ==> state != AtTagTerm && old(state) != AtTagTerm
    {
      if state == AtCdata && t.kind == TCdataStop {
        AppendText(t.text, cfg.multiText);
        state := AtIdle;
        return true;
      }
      if t.kind == (if state == AtComment then TCStop else if state == AtCdata then TCdataStop else TMStop1) {
        state := AtIdle;
        return true;
      }
      return state == AtComment || state == AtDoctype;
    }

    /** The `>` after a tag's attributes, which starts the activation for its subtree. */
    ghost predicate Opens(t: Token)
      reads this
    {
      state == AtAttribute && t.kind == TMStop1
    }

    /** The `>` of a close tag, which ends the activation. */
    ghost predicate Closes(t: Token)
      reads this
    {
      state == AtTagTerm && t.kind == TMStop1
    }

    /** The end of file between tags, which ends the activation. */
    ghost predicate Finishes(t: Token)
      reads this
    {
      state == AtIdle && t.kind == TEof
    }

    /** The return code kept ready for the end of the activation. */
    ghost predicate CodeReady(names: seq<string>)
      reads this
      requires names != []
    {
      retval == if state == AtTagTerm then CloseCode(|names|, CloseIndex(names, closing)) else 0
    }

    /** One round of the loop, for the tokens that neither start nor end an activation. */
    method Step(cfg: Config, rootNames: array<string>, rec: nat, t: Token) returns (ok: bool)
      requires rec < rootNames.Length
      requires !bypassGetToken && NulFree(t.text) && CodeReady(rootNames[..rec + 1])
      requires !Opens(t) && !Closes(t) && !Finishes(t)
      modifies this
      ensures Did(old(Level()), ok, cfg, rootNames[..rec + 1], t)
      ensures ok ==> CodeReady(rootNames[..rec + 1])
      ensures bypassGetToken ==> state == AtAttribute || state == AtQAttribute
      ensures old(state) == AtAttribute || old(state) == AtQAttribute ==> !bypassGetToken
    {
      hide Act1, CloseCode, CloseIndex;
      ghost var names := rootNames[..rec + 1];
      match state
      case AtIdle => ok := StepIdle(cfg, names, t);
      case AtNode | AtQNode => ok := StepNode(cfg, names, t);
      case AtAttribute | AtQAttribute => ok := StepAttribute(cfg, names, t);
      case AtAttributeEquals | AtQAttributeEquals => ok := StepEquals(cfg, names, t);
      case AtString | AtQString => ok := StepString(cfg, names, t);
      case AtNodeClose => ok := StepNodeClose(cfg, rootNames, rec, t);
      case AtTagTerm | AtTagTermIgnore | AtComment | AtDoctype | AtCdata => ok := StepSkip(cfg, names, t);
    }

    /** The finished subtree becomes the last child. */
    method LinkSubtree(subtree: Frame)
      modifies this`state, this`child
      ensures Level() == Link(old(Level()), old(subtree.Level()).node) && state == AtIdle
    {
      child := child + [Element(nodeName, subtree.data, properties, subtree.child)];
      state := AtIdle;
    }
  }

  /** The tokens that the next `calls` calls of a lexer object will deliver. */
  ghost function Remaining(lexer: Lexer, buffer: Buffer, calls: nat): seq<Token>
    reads lexer, buffer
    requires lexer.Valid()
  {
    Fetched(lexer.Now(buffer.size), calls)
  }

  /** The lexer and its buffer, which grows by being replaced. */
  twostate predicate Lexing(lexer: Lexer, buffer: Buffer)
    reads lexer, buffer
  {
    lexer.Valid() && buffer.Valid() && (buffer.tok == old(buffer.tok) || fresh(buffer.tok))
  }

  /** A call of the lexer takes the first of the remaining tokens. */
  method NextToken(lexer: Lexer, buffer: Buffer, ghost calls: nat) returns (t: Token)
    requires lexer.Valid() && buffer.Valid() && calls > 0
    modifies lexer, buffer, buffer.tok
    ensures Lexing(lexer, buffer) && NulFree(t.text)
    ensures old(Remaining(lexer, buffer, calls))
         == if t.kind == TError then [t] else [t] + Remaining(lexer, buffer, calls - 1)
  {
    hide Lex;
    FetchedStep(lexer.Now(buffer.size), calls);
    var kind, len := lexer.GetToken(buffer);
    t := Token(kind, if kind == TEof || kind == TError then "" else CStr(buffer.tok[..len]));
  }

  /** The activation returns `code`, or nothing if the calls of the lexer are used up, as `r` says. */
  ghost predicate Ends(r: Result, code: Option<int>, frame: Frame, rest: seq<Token>)
    reads frame
  {
    if r.Unfinished? then code == None
    else code == Some(r.code) && frame.Level().node == r.node && (r.code != -1 ==> rest == r.rest)
  }

  /** What the loop will see next: the token to be looked at again, if any, and then the lexer's. */
  ghost function Pending(frame: Frame, t: Token, rest: seq<Token>): seq<Token>
    reads frame
  {
    (if frame.bypassGetToken then [t] else []) + rest
  }

  /** How the subtree's result `r` changes its parent from `l` to `l'`, and whether the parent returns `code`. */
  ghost predicate Subtree(l: Level, l': Level, rest: seq<Token>, ended: bool, code: Option<int>, r: Result) {
    if r.Unfinished? then ended && code == None
    else
      && ended == (r.code != 0)
      && (r.code == -1 || r.code > 0 ==> code == Some(r.code) && l' == l)
      && (r.code < -1 ==> code == Some(UnwindCode(r.code)))
      && (r.code == 0 || r.code < -1 ==> l' == Link(l, r.node))
      && (r.code != -1 ==> rest == r.rest)
  }

  /** The loop's condition: a token, or the end of the activation for want of one. */
  method FetchToken(lexer: Lexer, buffer: Buffer, frame: Frame, ghost names: seq<string>, cfg: Config, calls: nat)
    returns (t: Token, ended: bool, code: Option<int>)
    requires lexer.Valid() && buffer.Valid() && 0 < |names| <= MAX_RECURSION
    modifies lexer, buffer, buffer.tok
    ensures Lexing(lexer, buffer) && NulFree(t.text)
    ensures !ended ==>
              && t.kind != TError && calls > 0
              && old(Remaining(lexer, buffer, calls)) == [t] + Remaining(lexer, buffer, calls - 1)
    ensures ended ==> code == None || code == Some(-1)
    ensures ended ==> Ends(GetNode(cfg, old(Remaining(lexer, buffer, calls)), names, frame.Level()), code, frame, [])
  {
    hide Act1, GetNode, CloseCode, CloseIndex;
    GetNodeEnds(cfg, Remaining(lexer, buffer, calls), names, frame.Level());
    if calls == 0 {
      return Token(TEof, ""), true, None;
    }
    t := NextToken(lexer, buffer, calls);
    if t.kind == TError {
      return t, true, Some(-1);
    }
    return t, false, None;
  }

  /** A token that neither starts nor ends an activation, with `ts` to come. */
  method OtherToken(ghost ts: seq<Token>, t: Token, frame: Frame, rootNames: array<string>, rec: nat, cfg: Config)
    returns (ok: bool)
    requires rec < MAX_RECURSION && rec < rootNames.Length && t.kind != TError && NulFree(t.text)
    requires !frame.bypassGetToken && frame.CodeReady(rootNames[..rec + 1])
    requires !frame.Opens(t) && !frame.Closes(t) && !frame.Finishes(t)
    modifies frame
    ensures var r := GetNode(cfg, [t] + ts, rootNames[..rec + 1], old(frame.Level()));
            if ok then r == GetNode(cfg, Pending(frame, t, ts), rootNames[..rec + 1], frame.Level())
            else r == Done(-1, ts, frame.Level().node)
    ensures ok ==> frame.CodeReady(rootNames[..rec + 1])
    ensures frame.bypassGetToken ==> frame.state == AtAttribute || frame.state == AtQAttribute
    ensures old(frame.state) == AtAttribute || old(frame.state) == AtQAttribute ==> !frame.bypassGetToken
  {
    hide Act1, GetNode, CloseCode, CloseIndex, Link;
    ghost var names := rootNames[..rec + 1];
    GetNodeStep(cfg, t, ts, names, frame.Level());
    ok := frame.Step(cfg, rootNames, rec, t);
    GetNodeStep(cfg, t, ts, names, frame.Level());
    assert !frame.bypassGetToken ==> Pending(frame, t, ts) == ts;
  }

  /**
   The `>` after a tag's attributes: a new activation reads the subtree, which
   is linked in unless it failed.  `ended` says that this activation returns `code`.
   */
  method OpenSubtree(lexer: Lexer, buffer: Buffer, frame: Frame, rootNames: array<string>, rec: nat, cfg: Config,
          calls: nat)
    returns (ended: bool, code: Option<int>, left: nat)
    requires lexer.Valid() && buffer.Valid()
    requires rec < MAX_RECURSION && rootNames.Length == MAX_RECURSION + 1
    requires frame.state == AtAttribute && frame.retval == 0 && !frame.bypassGetToken
    modifies lexer, buffer, buffer.tok, frame`state, frame`child, rootNames
    ensures Lexing(lexer, buffer) && rootNames[..rec + 1] == old(rootNames[..rec + 1])
    ensures left <= calls
    ensures !ended ==> frame.state == AtIdle
    ensures Subtree(old(frame.Level()), frame.Level(), Remaining(lexer, buffer, left), ended, code,
              GetNode(cfg, old(Remaining(lexer, buffer, calls)), old(rootNames[..rec + 1]) + [old(frame.nodeName)],
                  FRESH))
    decreases calls, MAX_RECURSION - rec, 0
  {
    hide GetNode, Link, Fetched;
    ghost var l, names := frame.Level(), rootNames[..rec + 1];
    var subtree := new Frame();
    rootNames[rec + 1] := frame.nodeName;
    assert rootNames[..rec + 2] == names + [l.name];
    code, left := GetNodeInternal(lexer, buffer, subtree, rootNames, rec + 1, cfg, calls);
    assert rootNames[..rec + 1] == rootNames[..rec + 2][..rec + 1] == names;
    if code == None || code.value == -1 || code.value > 0 {
      return true, code, left;
    }
    frame.LinkSubtree(subtree);
    if code.value < -1 {
      return true, Some(UnwindCode(code.value)), left;
    }
    return false, code, left;
  }

  /** The body of the loop, behind the token `t`: `ended` says that the activation returns `code`. */
  method HandleToken(lexer: Lexer, buffer: Buffer, t: Token, frame: Frame, rootNames: array<string>, rec: nat,
          cfg: Config, calls: nat)
    returns (ended: bool, code: Option<int>, left: nat)
    requires lexer.Valid() && buffer.Valid() && t.kind != TError && NulFree(t.text)
    requires rec < MAX_RECURSION && rootNames.Length == MAX_RECURSION + 1
    requires !frame.bypassGetToken && frame.CodeReady(rootNames[..rec + 1])
    modifies lexer, buffer, buffer.tok, frame, rootNames
    ensures Lexing(lexer, buffer) && rootNames[..rec + 1] == old(rootNames[..rec + 1])
    ensures left <= calls
    ensures var r := GetNode(cfg, old([t] + Remaining(lexer, buffer, calls)), rootNames[..rec + 1], old(frame.Level()));
            if ended then Ends(r, code, frame, Remaining(lexer, buffer, left))
            else r == GetNode(cfg, Pending(frame, t, Remaining(lexer, buffer, left)), rootNames[..rec + 1],
                frame.Level())
    ensures !ended ==> frame.CodeReady(rootNames[..rec + 1])
    ensures !ended && frame.bypassGetToken ==> frame.state == AtAttribute || frame.state == AtQAttribute
    ensures !ended && (old(frame.state) == AtAttribute || old(frame.state) == AtQAttribute) ==> !frame.bypassGetToken
    decreases calls, MAX_RECURSION - rec, 1
  {
    hide Act1, Fetched, CloseCode, CloseIndex, Link, GetNode, UnwindCode;
    ghost var ts, names := Remaining(lexer, buffer, calls), rootNames[..rec + 1];
    GetNodeStep(cfg, t, ts, names, frame.Level());
    StopActs(cfg, names, frame.Level(), t);
    left := calls;
    if frame.state == AtTagTerm && t.kind == TMStop1 {
      return true, Some(frame.retval), left;
    }
    if frame.state == AtIdle && t.kind == TEof {
      return true, Some(frame.retval), left;
    }
    if frame.state == AtAttribute && t.kind == TMStop1 {
      ended, code, left := OpenSubtree(lexer, buffer, frame, rootNames, rec, cfg, calls);
      assert Pending(frame, t, Remaining(lexer, buffer, left)) == Remaining(lexer, buffer, left);
      return ended, code, left;
    }
    var ok := OtherToken(ts, t, frame, rootNames, rec, cfg);
    return !ok, Some(-1), left;
  }

  lemma FreshIsReady(frame: Frame, names: seq<string>)
    requires names != [] && frame.Level() == FRESH && frame.retval == 0
    ensures frame.CodeReady(names) && NulFree("")
  {
  }

  lemma PendingTokens(frame: Frame, t: Token, rest: seq<Token>)
    ensures Pending(frame, t, rest) == if frame.bypassGetToken then [t] + rest else rest
  {
  }

  /**
   `xml_parser_get_node_internal`, for at most `calls` calls of the lexer: the
   return code, or nothing if it has not returned by then, and the calls that
   are left.  `rootNames` has one place more than there can be activations.
   */
  method GetNodeInternal(lexer: Lexer, buffer: Buffer, frame: Frame, rootNames: array<string>, rec: nat, cfg: Config,
          calls: nat)
    returns (code: Option<int>, left: nat)
    requires lexer.Valid() && buffer.Valid()
    requires rec <= MAX_RECURSION && rootNames.Length == MAX_RECURSION + 1
    requires frame.Level() == FRESH && frame.retval == 0 && !frame.bypassGetToken
    modifies lexer, buffer, buffer.tok, frame, rootNames
    ensures Lexing(lexer, buffer) && rootNames[..rec + 1] == old(rootNames[..rec + 1])
    ensures left <= calls
    ensures Ends(GetNode(cfg, old(Remaining(lexer, buffer, calls)), old(rootNames[..rec + 1]), FRESH), code, frame,
              Remaining(lexer, buffer, left))
    decreases calls, MAX_RECURSION - rec, 2
  {
    hide Act1, Fetched, CloseCode, CloseIndex, Link, GetNode, UnwindCode, Pending, Remaining, NulFree;
    ghost var names := rootNames[..rec + 1];
    FreshIsReady(frame, names);
    ghost var expected := GetNode(cfg, Remaining(lexer, buffer, calls), names, FRESH);
    GetNodeEnds(cfg, Remaining(lexer, buffer, calls), names, FRESH);
    left := calls;
    if rec >= MAX_RECURSION {
      return Some(-1), left;
    }
    var t := Token(TEof, "");
    PendingTokens(frame, t, Remaining(lexer, buffer, left));
    while true
      invariant Lexing(lexer, buffer) && rootNames[..rec + 1] == names && NulFree(t.text)
      invariant left <= calls && (frame.bypassGetToken ==> left < calls)
      invariant frame.CodeReady(names)
      invariant frame.bypassGetToken ==> t.kind != TError && (frame.state == AtAttribute || frame.state == AtQAttribute)
      invariant expected == GetNode(cfg, Pending(frame, t, Remaining(lexer, buffer, left)), names, frame.Level())
      decreases left, frame.bypassGetToken
    {
      PendingTokens(frame, t, Remaining(lexer, buffer, left));
      var ended, c;
      if !frame.bypassGetToken {
        t, ended, c := FetchToken(lexer, buffer, frame, names, cfg, left);
        if ended {
          return c, if left > 0 then left - 1 else 0;
        }
        left := left - 1;
      }
      frame.bypassGetToken := false;
      assert expected == GetNode(cfg, [t] + Remaining(lexer, buffer, left), names, frame.Level());
      ended, c, left := HandleToken(lexer, buffer, t, frame, rootNames, rec, cfg, left);
      if ended {
        return c, left;
      }
    }
  }

  /** `xml_parser_get_node`: the text is read into the children of one node, with at most `calls` calls of the lexer. */
  method GetNodeOf(text: string, frame: Frame, cfg: Config, calls: nat) returns (code: Option<int>)
    requires frame.Level() == FRESH && frame.retval == 0 && !frame.bypassGetToken
    modifies frame
    ensures var r := GetNode(cfg, Fetched(Start(text), calls), [""], FRESH);
            if r.Unfinished? then code == None else code == Some(r.code) && frame.Level().node == r.node
  {
    hide GetNode, Fetched;
    var lexer := new Lexer(text);
    var buffer := new Buffer(TOKEN_SIZE);
    var rootNames := new string[MAX_RECURSION + 1](_ => "");
    assert rootNames[..1] == [""] && lexer.Rest() == text;
    var left;
    code, left := GetNodeInternal(lexer, buffer, frame, rootNames, 0, cfg, calls);
  }
}
