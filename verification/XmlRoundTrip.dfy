/**
 The second half of the round trip: the parser turns the printed text of a
 tree into the tree, for the trees whose names and values fit the token buffer
 and whose depth it can follow.
 */
module XmlRoundTrip {
  import opened CText
  import opened XmlTree
  import opened L = XmlLexer
  import opened XmlBuilder
  import opened XmlPrinter
  import opened XmlMachine
  import opened XmlRoundTripLexing
  import opened XmlRoot
  import Entities

  // ----- what reading a node does to the activation around it

  /** The properties of a tag read one after the other. */
  function AfterProps(l: Level, props: seq<Prop>): Level
    decreases |props|
  {
    if props == [] then l
    else AfterProps(l.(attr := props[0].name, props := l.props + [props[0]]), props[1..])
  }

  function AfterTag(l: Level, n: Node): Level
    requires n.Element?
  {
    AfterProps(l.(state := AtAttribute, name := n.name, props := []), n.props)
  }

  function AfterNode(l: Level, n: Node): Level
    requires n.Element?
  {
    Link(AfterTag(l, n), Content(None, n.child))
  }

  function AfterKids(l: Level, nodes: seq<Node>): Level
    decreases |nodes|
  {
    if nodes == [] || nodes[0].Text? then l else AfterKids(AfterNode(l, nodes[0]), nodes[1..])
  }

  lemma {:induction false} AfterPropsKeeps(l: Level, props: seq<Prop>)
    ensures var l' := AfterProps(l, props);
            l'.state == l.state && l'.name == l.name && l'.node == l.node && l'.props == l.props + props
    decreases |props|
  {
    if props == [] {
      assert l.props + [] == l.props;
    } else {
      AfterPropsKeeps(l.(attr := props[0].name, props := l.props + [props[0]]), props[1..]);
      assert l.props + [props[0]] + props[1..] == l.props + props;
    }
  }

  /** The node read is the last child, whole. */
  lemma AfterNodeAppends(l: Level, n: Node)
    requires n.Element? && n.data == None
    ensures var l' := AfterNode(l, n);
            l'.state == AtIdle && l'.node == l.node.(child := l.node.child + [n])
  {
    hide AfterProps;
    AfterPropsKeeps(l.(state := AtAttribute, name := n.name, props := []), n.props);
    assert [] + n.props == n.props;
  }

  lemma {:induction false} AfterKidsAppends(l: Level, nodes: seq<Node>)
    requires l.state == AtIdle && forall i :: 0 <= i < |nodes| ==> nodes[i].Element? && nodes[i].data == None
    ensures var l' := AfterKids(l, nodes);
            l'.state == AtIdle && l'.node == l.node.(child := l.node.child + nodes)
    decreases |nodes|
  {
    hide AfterNode;
    if nodes == [] {
      assert l.node.child + [] == l.node.child;
    } else {
      AfterNodeAppends(l, nodes[0]);
      AfterKidsAppends(AfterNode(l, nodes[0]), nodes[1..]);
      assert l.node.child + [nodes[0]] + nodes[1..] == l.node.child + nodes;
    }
  }

  // ----- the size of the token buffer

  /**
   Its size behind the properties, if they all fit: a token has to be shorter
   than the buffer, while blanks make it grow.
   */
  function PropsSize(props: seq<Prop>, pad: nat, size: Size): (r: Option<Size>)
    ensures r.Some? ==> r.value >= size
  {
    if props == [] then Some(size)
    else if |props[0].name| >= size || |Quoted(props[0].value.GetOr(""))| >= size then None
    else PropsSize(props[1..], pad, if |props| == 1 then size else Grown(size, pad))
  }

  /** Its size behind a printed node, if the names and values in it all fit. */
  function NodeSize(n: Node, indent: nat, size: Size): (r: Option<Size>)
    requires n.Element?
    ensures r.Some? ==> r.value >= size
    decreases n
  {
    if |n.name| >= size then None
    else
      match PropsSize(n.props, indent + 2 + |n.name|, size)
      case None => None
      case Some(behind) =>
        match KidsSize(n.child, indent + 2, behind)
        case None => None
        case Some(last) => Some(Grown(last, 1 + indent))
  }

  function KidsSize(nodes: seq<Node>, indent: nat, size: Size): (r: Option<Size>)
    ensures r.Some? ==> r.value >= size
    decreases nodes
  {
    if nodes == [] then Some(size)
    else if nodes[0].Text? then KidsSize(nodes[1..], indent, size)
    else
      match NodeSize(nodes[0], indent, Grown(size, 1 + indent))
      case None => None
      case Some(behind) => KidsSize(nodes[1..], indent, behind)
  }

  predicate ShortProp(p: Prop) {
    |p.name| < TOKEN_SIZE && |Quoted(p.value.GetOr(""))| < TOKEN_SIZE
  }

  /** Every name and every escaped value is shorter than the buffer is at first. */
  predicate ShortTokens(n: Node) {
    n.Element? ==>
      && |n.name| < TOKEN_SIZE
      && (forall i :: 0 <= i < |n.props| ==> ShortProp(n.props[i]))
      && forall i :: 0 <= i < |n.child| ==> ShortTokens(n.child[i])
  }

  lemma {:induction false} ShortPropsFit(props: seq<Prop>, pad: nat, size: Size)
    requires size >= TOKEN_SIZE && forall i :: 0 <= i < |props| ==> ShortProp(props[i])
    ensures PropsSize(props, pad, size).Some?
    decreases |props|
  {
    hide Quoted, Grown;
    if props != [] {
      ShortPropsFit(props[1..], pad, if |props| == 1 then size else Grown(size, pad));
    }
  }

  /** Then they all fit wherever they stand, since the buffer only grows. */
  lemma {:induction false} ShortTokensFit(n: Node, indent: nat, size: Size)
    requires n.Element? && ShortTokens(n) && size >= TOKEN_SIZE
    ensures NodeSize(n, indent, size).Some?
    decreases n
  {
    hide PropsSize, Grown, ShortProp;
    ShortPropsFit(n.props, indent + 2 + |n.name|, size);
    ShortKidsFit(n.child, indent + 2, PropsSize(n.props, indent + 2 + |n.name|, size).value);
  }

  lemma {:induction false} ShortKidsFit(nodes: seq<Node>, indent: nat, size: Size)
    requires size >= TOKEN_SIZE && forall i :: 0 <= i < |nodes| ==> ShortTokens(nodes[i])
    ensures KidsSize(nodes, indent, size).Some?
    decreases nodes
  {
    hide NodeSize, Grown, ShortProp;
    if nodes != [] {
      if nodes[0].Element? {
        ShortTokensFit(nodes[0], indent, Grown(size, 1 + indent));
        ShortKidsFit(nodes[1..], indent, NodeSize(nodes[0], indent, Grown(size, 1 + indent)).value);
      } else {
        ShortKidsFit(nodes[1..], indent, size);
      }
    }
  }

  // ----- single calls of the lexer

  /** What the machine makes of all that is left to read. */
  function Reading(cfg: Config, i: Input, below: seq<Level>, top: Level): Final {
    Run(cfg, Tokens(i), below, top)
  }

  lemma ReadCall(cfg: Config, i: Input, c: Call, below: seq<Level>, top: Level)
    requires Lex(i) == c && c.kind != TEof && c.kind != TError
    ensures Reading(cfg, i, below, top)
         == AfterAct(cfg, Tokens(c.next), below, top, Act1(cfg, Names(below), top, TokenOf(c)))
  {
    hide Lex, Tokens, Run, Act1, TokenOf, AfterAct;
    TokensStep(i);
    RunStep(cfg, TokenOf(c), Tokens(c.next), below, top);
  }

  lemma ReadStay(cfg: Config, i: Input, c: Call, below: seq<Level>, top: Level, l: Level)
    requires Lex(i) == c && c.kind != TEof && c.kind != TError
    requires Act1(cfg, Names(below), top, TokenOf(c)) == Stay(l)
    ensures Reading(cfg, i, below, top) == Reading(cfg, c.next, below, l)
  {
    hide Lex, Tokens, Run, Act1, TokenOf;
    ReadCall(cfg, i, c, below, top);
  }

  lemma SameTokens(i: Input, j: Input)
    requires Lex(i) == Lex(j)
    ensures Tokens(i) == Tokens(j)
  {
    hide Lex, TokenOf;
  }

  /** A token that the buffer cut off is as if it had not been there. */
  lemma ReadSame(cfg: Config, i: Input, j: Input, below: seq<Level>, top: Level)
    requires Lex(i) == Lex(j)
    ensures Reading(cfg, i, below, top) == Reading(cfg, j, below, top)
  {
    hide Lex, Tokens, Run;
    SameTokens(i, j);
  }

  lemma TokenOfNulFree(c: Call)
    requires c.kind != TEof && c.kind != TError && NulFree(c.raw)
    ensures TokenOf(c) == Token(c.kind, c.raw)
  {
    StrLenOfNulFree(c.raw);
  }

  // ----- blanks and line breaks

  lemma BlankActs(cfg: Config, names: seq<string>, l: Level, t: Token)
    requires names != [] && (t.kind == TEol || t.kind == TSepar) && l.state in {AtIdle, AtAttribute}
    ensures Act1(cfg, names, l, t) == Stay(l)
  {
  }

  lemma {:induction false} ReadBlanks(cfg: Config, b: string, x: string, size: Size, below: seq<Level>, l: Level)
    requires AreBlanks(b) && x != "" && x[0] != ' ' && x[0] != '\t' && l.state in {AtIdle, AtAttribute}
    ensures Reading(cfg, Ahead(b + x, Normal, size), below, l)
            == Reading(cfg, Ahead(x, Normal, Grown(size, |b|)), below, l)
    decreases |b|
  {
    hide Reading, Lex, Act1, Names;
    if b == "" {
      assert b + x == x;
    } else {
      LexBlanks(b, x, size);
      if |b| < size {
        var c := Call(TSepar, b, Ahead(x, Normal, size));
        TokenOfNulFree(c);
        BlankActs(cfg, Names(below), l, Token(TSepar, b));
        ReadStay(cfg, Ahead(b + x, Normal, size), c, below, l, l);
      } else {
        ReadSame(cfg, Ahead(b + x, Normal, size), Ahead(b[size..] + x, Normal, 2 * size), below, l);
        ReadBlanks(cfg, b[size..], x, 2 * size, below, l);
      }
    }
  }

  predicate IsBlankData(d: string) {
    AllSpaces(d) && forall i :: 0 <= i < |d| ==> d[i] != '<' && d[i] != '&' && d[i] != '\0'
  }

  lemma {:induction false} DecodeOfPlain(s: string)
    requires forall i :: 0 <= i < |s| ==> s[i] != '&'
    ensures Entities.Decode(s) == s
  {
    if s != "" {
      DecodeOfPlain(s[1..]);
    }
  }

  lemma DataActs(cfg: Config, names: seq<string>, l: Level, d: string)
    requires names != [] && IsBlankData(d) && l.state == AtIdle && l.node.data == None && !cfg.multiText
    ensures Act1(cfg, names, l, Token(TData, d)) == Stay(l)
  {
    hide Entities.Decode, SkipSpaces;
    DecodeOfPlain(d);
    SkipSpacesOfAllSpaces(d);
  }

  lemma {:induction false} ReadData(cfg: Config, d: string, x: string, size: Size, below: seq<Level>, l: Level)
    requires IsBlankData(d) && l.state == AtIdle && l.node.data == None && !cfg.multiText
    ensures Reading(cfg, Ahead(d + ("<" + x), Data, size), below, l)
         == Reading(cfg, Ahead("<" + x, Normal, Grown(size, |d|)), below, l)
    decreases |d|
  {
    hide Reading, Lex, Act1, Names;
    LexDataText(d, x, size);
    if |d| < size {
      var c := Call(TData, d, Ahead("<" + x, Normal, size));
      TokenOfNulFree(c);
      DataActs(cfg, Names(below), l, d);
      ReadStay(cfg, Ahead(d + ("<" + x), Data, size), c, below, l, l);
    } else {
      ReadSame(cfg, Ahead(d + ("<" + x), Data, size), Ahead(d[size..] + ("<" + x), Data, 2 * size), below, l);
      ReadData(cfg, d[size..], x, 2 * size, below, l);
    }
  }

  /** The line break and the blanks in front of a tag. */
  lemma ReadLineBreak(cfg: Config, indent: nat, x: string, size: Size, below: seq<Level>, l: Level)
    requires l.state == AtIdle && l.node.data == None && !cfg.multiText
    ensures Reading(cfg, Ahead("\n" + (Blanks(indent) + ("<" + x)), Data, size), below, l)
         == Reading(cfg, Ahead("<" + x, Normal, Grown(size, 1 + indent)), below, l)
  {
    hide Reading;
    var d := "\n" + Blanks(indent);
    assert d + ("<" + x) == "\n" + (Blanks(indent) + ("<" + x));
    ReadData(cfg, d, x, size, below, l);
  }

  // ----- start tags

  lemma StartActs(cfg: Config, names: seq<string>, l: Level)
    requires names != [] && l.state == AtIdle
    ensures Act1(cfg, names, l, Token(TMStart1, "<")) == Stay(l.(state := AtNode))
    ensures Act1(cfg, names, l, Token(TMStart2, "</")) == Stay(l.(state := AtNodeClose))
  {
  }

  lemma ReadTagStart(cfg: Config, x: string, size: Size, below: seq<Level>, l: Level)
    requires l.state == AtIdle && x != "" && x[0] !in "/!?"
    ensures Reading(cfg, Ahead("<" + x, Normal, size), below, l)
            == Reading(cfg, Ahead(x, Normal, size), below, l.(state := AtNode))
  {
    hide Reading, Lex, Act1, Names;
    LexMStart1(x, size);
    var c := Call(TMStart1, "<", Ahead(x, Normal, size));
    TokenOfNulFree(c);
    StartActs(cfg, Names(below), l);
    ReadStay(cfg, Ahead("<" + x, Normal, size), c, below, l, l.(state := AtNode));
  }

  /** A name that fits, in any state that takes it. */
  lemma ReadName(cfg: Config, n: string, x: string, size: Size, below: seq<Level>, l: Level, l': Level)
    requires PlainName(cfg, n) && |n| < size && x != "" && EndsIdent(x[0])
    requires Act1(cfg, Names(below), l, Token(TIdent, n)) == Stay(l')
    ensures Reading(cfg, Ahead(n + x, Normal, size), below, l) == Reading(cfg, Ahead(x, Normal, size), below, l')
  {
    hide Reading, Lex, Act1, Names, Fold;
    PlainNameIsRest(cfg, n);
    LexName(n, x, size);
    var c := Call(TIdent, n, Ahead(x, Normal, size));
    assert NulFree(n);
    TokenOfNulFree(c);
    ReadStay(cfg, Ahead(n + x, Normal, size), c, below, l, l');
  }

  lemma NameActs(cfg: Config, names: seq<string>, l: Level, name: string)
    requires names != [] && Fold(cfg, name) == name
    ensures l.state == AtNode ==>
              Act1(cfg, names, l, Token(TIdent, name)) == Stay(l.(state := AtAttribute, name := name, props := []))
    ensures l.state == AtAttribute ==>
              Act1(cfg, names, l, Token(TIdent, name)) == Stay(l.(state := AtAttributeEquals, attr := name))
    ensures l.state == AtNodeClose && names[|names| - 1] == name ==>
              Act1(cfg, names, l, Token(TIdent, name)) == Stay(l.(state := AtTagTerm, closing := name))
  {
    hide Fold;
  }

  // ----- properties

  lemma EqualActs(cfg: Config, names: seq<string>, l: Level)
    requires names != [] && l.state == AtAttributeEquals
    ensures Act1(cfg, names, l, Token(TEqual, "=")) == Stay(l.(state := AtString))
  {
  }

  lemma ReadEquals(cfg: Config, x: string, size: Size, below: seq<Level>, l: Level)
    requires l.state == AtAttributeEquals
    ensures Reading(cfg, Ahead("=" + x, Normal, size), below, l)
            == Reading(cfg, Ahead(x, Normal, size), below, l.(state := AtString))
  {
    hide Reading, Lex, Act1, Names;
    LexEqual(x, size);
    var c := Call(TEqual, "=", Ahead(x, Normal, size));
    TokenOfNulFree(c);
    EqualActs(cfg, Names(below), l);
    ReadStay(cfg, Ahead("=" + x, Normal, size), c, below, l, l.(state := AtString));
  }

  function WithProp(l: Level, p: Prop): Level {
    l.(state := AtAttribute, attr := p.name, props := l.props + [p])
  }

  lemma ValueActs(cfg: Config, names: seq<string>, l: Level, value: string)
    requires names != [] && l.state == AtString && NulFree(value)
    ensures Act1(cfg, names, l, Token(TString, Quoted(value))) == Stay(WithProp(l, Prop(l.attr, Some(value))))
  {
    hide Entities.Decode, Entities.Escape;
    Entities.DecodeUndoesEscape(value, Entities.SingleQuote);
  }

  lemma ReadValue(cfg: Config, value: string, x: string, size: Size, below: seq<Level>, l: Level)
    requires l.state == AtString && NulFree(value) && |Quoted(value)| < size
    ensures Reading(cfg, Ahead("'" + (Quoted(value) + ("'" + x)), Normal, size), below, l)
         == Reading(cfg, Ahead(x, Normal, size), below, WithProp(l, Prop(l.attr, Some(value))))
  {
    hide Reading, Lex, Act1, Names, Quoted;
    EscapedIsQuotable(value);
    LexString(Quoted(value), x, size);
    var c := Call(TString, Quoted(value), Ahead(x, Normal, size));
    TokenOfNulFree(c);
    ValueActs(cfg, Names(below), l, value);
    ReadStay(cfg, Ahead("'" + (Quoted(value) + ("'" + x)), Normal, size), c, below, l,
        WithProp(l, Prop(l.attr, Some(value))));
  }

  lemma PlainNameFolds(cfg: Config, n: string)
    requires PlainName(cfg, n)
    ensures Fold(cfg, n) == n
  {
  }

  lemma ReadProp(cfg: Config, p: Prop, x: string, size: Size, below: seq<Level>, l: Level)
    requires l.state == AtAttribute && PlainProp(cfg, p) && |p.name| < size && |Quoted(p.value.value)| < size
    ensures Reading(cfg, Ahead(p.name + ("='" + (Quoted(p.value.value) + ("'" + x))), Normal, size), below, l)
         == Reading(cfg, Ahead(x, Normal, size), below, WithProp(l, p))
  {
    hide Reading, Lex, Act1, Names, Quoted, PlainName;
    var l1 := l.(state := AtAttributeEquals, attr := p.name);
    var value := Quoted(p.value.value) + ("'" + x);
    assert "='" + value == "=" + ("'" + value);
    PlainNameFolds(cfg, p.name);
    NameActs(cfg, Names(below), l, p.name);
    ReadName(cfg, p.name, "='" + value, size, below, l, l1);
    ReadEquals(cfg, "'" + value, size, below, l1);
    ReadValue(cfg, p.value.value, x, size, below, l1.(state := AtString));
    assert WithProp(l1.(state := AtString), Prop(p.name, Some(p.value.value))) == WithProp(l, p);
  }

  /** The line break between two properties. */
  lemma ReadGap(cfg: Config, pad: nat, x: string, size: Size, below: seq<Level>, l: Level)
    requires pad > 0 && x != "" && x[0] !in " \t\n\r" && l.state == AtAttribute
    ensures Reading(cfg, Ahead("\n" + (Blanks(pad) + x), Normal, size), below, l)
         == Reading(cfg, Ahead(x, Normal, Grown(size, pad)), below, l)
  {
    hide Reading, Lex, Act1, Names;
    LexEol(Blanks(pad) + x, size);
    var c := Call(TEol, "\n", Ahead(Blanks(pad) + x, Normal, size));
    TokenOfNulFree(c);
    BlankActs(cfg, Names(below), l, Token(TEol, "\n"));
    ReadStay(cfg, Ahead("\n" + (Blanks(pad) + x), Normal, size), c, below, l, l);
    ReadBlanks(cfg, Blanks(pad), x, size, below, l);
  }

  lemma NextProp(cfg: Config, props: seq<Prop>, pad: nat, x: string)
    requires props != [] && PlainProp(cfg, props[0])
    ensures var s := PropsText(props, pad, x); s != "" && s[0] !in " \t\n\r"
  {
    hide Quoted, GapText, Fold;
    PlainNameIsRest(cfg, props[0].name);
  }

  lemma {:induction false} ParseProps(cfg: Config, props: seq<Prop>, pad: nat, x: string, size: Size,
          below: seq<Level>, l: Level)
    requires l.state == AtAttribute && pad > 0 && PropsSize(props, pad, size).Some?
    requires forall i :: 0 <= i < |props| ==> PlainProp(cfg, props[i])
    ensures Reading(cfg, Ahead(PropsText(props, pad, x), Normal, size), below, l)
         == Reading(cfg, Ahead(x, Normal, PropsSize(props, pad, size).value), below, AfterProps(l, props))
    decreases |props|
  {
    hide Reading, Quoted, PlainName, Blanks, Grown;
    if props != [] {
      var p, rest := props[0], props[1..];
      var text := PropsText(rest, pad, x);
      ReadProp(cfg, p, GapText(rest, pad, text), size, below, l);
      assert WithProp(l, p) == l.(attr := p.name, props := l.props + [p]);
      if rest == [] {
        assert text == x;
      } else {
        NextProp(cfg, rest, pad, x);
        ReadGap(cfg, pad, text, size, below, WithProp(l, p));
        ParseProps(cfg, rest, pad, x, Grown(size, pad), below, WithProp(l, p));
      }
    }
  }

  // ----- nodes

  lemma TagNameStart(cfg: Config, name: string, x: string)
    requires PlainName(cfg, name)
    ensures name + x != "" && (name + x)[0] !in "/!?"
  {
    hide Fold;
    PlainNameIsRest(cfg, name);
  }

  lemma NoPropsText(pad: nat, x: string)
    ensures PropsText([], pad, x) == x
  {
  }

  lemma PropsStart(cfg: Config, props: seq<Prop>, pad: nat, x: string)
    requires forall i :: 0 <= i < |props| ==> PlainProp(cfg, props[i])
    ensures var s := PropsText(props, pad, ">" + x); s != "" && s[0] != ' ' && s[0] != '\t'
  {
    hide PropsText, PlainName;
    if props == [] {
      assert PropsText(props, pad, ">" + x) == ">" + x by { NoPropsText(pad, ">" + x); }
    } else {
      NextProp(cfg, props, pad, ">" + x);
    }
  }

  /** The start tag up to its `>`. */
  lemma ParseTag(cfg: Config, n: Node, indent: nat, x: string, size: Size, below: seq<Level>, l: Level)
    requires l.state == AtIdle && Printable(cfg, n) && |n.name| < size
    requires PropsSize(n.props, indent + 2 + |n.name|, size).Some?
    ensures var pad := indent + 2 + |n.name|;
            Reading(cfg, Ahead("<" + (n.name + (" " + PropsText(n.props, pad, ">" + x))), Normal, size), below, l) ==
            Reading(cfg, Ahead(">" + x, Normal, PropsSize(n.props, pad, size).value), below, AfterTag(l, n))
  {
    hide Reading, PlainName, PropsText, AfterProps, PropsSize, Act1, Names;
    var pad := indent + 2 + |n.name|;
    var props := PropsText(n.props, pad, ">" + x);
    var l1, l2 := l.(state := AtNode), l.(state := AtAttribute, name := n.name, props := []);
    TagNameStart(cfg, n.name, " " + props);
    PropsStart(cfg, n.props, pad, x);
    PlainNameFolds(cfg, n.name);
    NameActs(cfg, Names(below), l1, n.name);
    ReadTagStart(cfg, n.name + (" " + props), size, below, l);
    ReadName(cfg, n.name, " " + props, size, below, l1, l2);
    ReadBlanks(cfg, " ", props, size, below, l2);
    assert Grown(size, 1) == size;
    ParseProps(cfg, n.props, pad, ">" + x, size, below, l2);
  }

  /** `>` starts the activation for the content, unless that is one too many. */
  lemma ParseOpen(cfg: Config, x: string, size: Size, below: seq<Level>, l: Level)
    requires l.state == AtAttribute && x != ""
    ensures Reading(cfg, Ahead(">" + x, Normal, size), below, l) ==
            if |below| + 2 > MAX_RECURSION then Finished(false, Bottom(below, l).node)
            else Reading(cfg, Ahead(x, Data, size), below + [l], FRESH)
  {
    hide Lex, Act1, Names, Run, Tokens;
    LexMStop1(x, size);
    var c := Call(TMStop1, ">", Ahead(x, Data, size));
    TokenOfNulFree(c);
    StopActs(cfg, Names(below), l, Token(TMStop1, ">"));
    ReadCall(cfg, Ahead(">" + x, Normal, size), c, below, l);
  }

  lemma ReadCloseStart(cfg: Config, x: string, size: Size, below: seq<Level>, l: Level)
    requires l.state == AtIdle
    ensures Reading(cfg, Ahead("</" + x, Normal, size), below, l)
            == Reading(cfg, Ahead(x, Normal, size), below, l.(state := AtNodeClose))
  {
    hide Reading, Lex, Act1, Names;
    LexMStart2(x, size);
    var c := Call(TMStart2, "</", Ahead(x, Normal, size));
    TokenOfNulFree(c);
    StartActs(cfg, Names(below), l);
    ReadStay(cfg, Ahead("</" + x, Normal, size), c, below, l, l.(state := AtNodeClose));
  }

  lemma InnermostName(below: seq<Level>, opener: Level)
    ensures var names := Names(below + [opener]); names[|names| - 1] == opener.name
  {
  }

  lemma CollapseOne(below: seq<Level>, opener: Level, l: Level)
    ensures (below + [opener])[..|below|] == below
    ensures Collapse(below + [opener], l, |below|) == Link(opener, l.node)
  {
  }

  lemma ReadCloseEnd(cfg: Config, x: string, size: Size, below: seq<Level>, opener: Level, l: Level)
    requires l.state == AtTagTerm && l.closing == opener.name && x != ""
    ensures Reading(cfg, Ahead(">" + x, Normal, size), below + [opener], l)
         == Reading(cfg, Ahead(x, Data, size), below, Link(opener, l.node))
  {
    hide Lex, Act1, Names, Run, Tokens;
    LexMStop1(x, size);
    var c := Call(TMStop1, ">", Ahead(x, Data, size));
    TokenOfNulFree(c);
    StopActs(cfg, Names(below + [opener]), l, Token(TMStop1, ">"));
    ReadCall(cfg, Ahead(">" + x, Normal, size), c, below + [opener], l);
    InnermostName(below, opener);
    assert CloseIndex(Names(below + [opener]), opener.name) == |below| + 1;
    CollapseOne(below, opener, l);
  }

  /** The close tag of an activation that has gathered all of its children. */
  lemma ParseClose(cfg: Config, name: string, indent: nat, x: string, size: Size, below: seq<Level>, opener: Level,
          l: Level)
    requires PlainName(cfg, name) && opener.name == name && |name| < size && x != ""
    requires l.state == AtIdle && l.node.data == None && !cfg.multiText
    ensures Reading(cfg, Ahead(CloseText(name, indent, x), Data, size), below + [opener], l)
         == Reading(cfg, Ahead(x, Data, Grown(size, 1 + indent)), below, Link(opener, l.node))
  {
    hide Reading, PlainName, Act1, Names, Lex;
    var l1, l2 := l.(state := AtNodeClose), l.(state := AtTagTerm, closing := name);
    var behind := Grown(size, 1 + indent);
    assert "</" + (name + (">" + x)) == "<" + ("/" + (name + (">" + x)));
    ReadLineBreak(cfg, indent, "/" + (name + (">" + x)), size, below + [opener], l);
    ReadCloseStart(cfg, name + (">" + x), behind, below + [opener], l);
    PlainNameFolds(cfg, name);
    InnermostName(below, opener);
    NameActs(cfg, Names(below + [opener]), l1, name);
    ReadName(cfg, name, ">" + x, behind, below + [opener], l1, l2);
    ReadCloseEnd(cfg, x, behind, below, opener, l2);
  }

  lemma KidsTextStart(nodes: seq<Node>, indent: nat, x: string)
    requires x != ""
    ensures KidsText(nodes, indent, x) != ""
  {
    hide NodeText;
  }

  lemma AfterTagKeeps(l: Level, n: Node)
    requires n.Element?
    ensures var l' := AfterTag(l, n); l'.state == AtAttribute && l'.name == n.name && l'.node == l.node
  {
    hide AfterProps;
    AfterPropsKeeps(l.(state := AtAttribute, name := n.name, props := []), n.props);
  }

  /** Reading a printed node that fits and is not too deep adds exactly that node. */
  lemma {:induction false} ParseNode(cfg: Config, n: Node, indent: nat, x: string, size: Size, below: seq<Level>,
          l: Level)
    requires |below| + 1 + Depth(n) <= MAX_RECURSION && Printable(cfg, n) && NodeSize(n, indent, size).Some?
    requires l.state == AtIdle && !cfg.multiText && x != ""
    ensures Reading(cfg, Ahead(NodeText(n, indent, x), Normal, size), below, l)
         == Reading(cfg, Ahead(x, Data, NodeSize(n, indent, size).value), below, AfterNode(l, n))
    decreases n, 0
  {
    hide Reading, PlainName, AfterTag, AfterKids, Blanks, PropsText, PropsSize, KidsText, KidsSize, Grown;
    var close := CloseText(n.name, indent, x);
    var kids := KidsText(n.child, indent + 2, close);
    var behind := PropsSize(n.props, indent + 2 + |n.name|, size).value;
    ParseTag(cfg, n, indent, kids, size, below, l);
    KidsTextStart(n.child, indent + 2, close);
    AfterTagKeeps(l, n);
    ParseOpen(cfg, kids, behind, below, AfterTag(l, n));
    ParseKids(cfg, n.child, indent + 2, close, behind, below + [AfterTag(l, n)], FRESH);
    AfterKidsAppends(FRESH, n.child);
    assert [] + n.child == n.child;
    ParseClose(cfg, n.name, indent, x, KidsSize(n.child, indent + 2, behind).value, below, AfterTag(l, n),
        AfterKids(FRESH, n.child));
  }

  lemma {:induction false} ParseKids(cfg: Config, nodes: seq<Node>, indent: nat, x: string, size: Size,
          below: seq<Level>, l: Level)
    requires |below| + 1 + MaxDepth(nodes) <= MAX_RECURSION && KidsSize(nodes, indent, size).Some?
    requires forall i :: 0 <= i < |nodes| ==> Printable(cfg, nodes[i])
    requires l.state == AtIdle && l.node.data == None && !cfg.multiText && x != ""
    ensures Reading(cfg, Ahead(KidsText(nodes, indent, x), Data, size), below, l)
         == Reading(cfg, Ahead(x, Data, KidsSize(nodes, indent, size).value), below, AfterKids(l, nodes))
    decreases nodes
  {
    hide Reading, PlainName, NodeText, NodeSize, AfterNode, Blanks, Grown;
    if nodes != [] {
      var n, rest := nodes[0], KidsText(nodes[1..], indent, x);
      KidsTextStart(nodes[1..], indent, x);
      ParseKid(cfg, n, indent, rest, size, below, l);
      AfterNodeAppends(l, n);
      ParseKids(cfg, nodes[1..], indent, x, NodeSize(n, indent, Grown(size, 1 + indent)).value, below, AfterNode(l, n));
    }
  }

  lemma ParseKid(cfg: Config, n: Node, indent: nat, x: string, size: Size, below: seq<Level>, l: Level)
    requires |below| + 1 + Depth(n) <= MAX_RECURSION && Printable(cfg, n)
    requires NodeSize(n, indent, Grown(size, 1 + indent)).Some?
    requires l.state == AtIdle && l.node.data == None && !cfg.multiText && x != ""
    ensures Reading(cfg, Ahead("\n" + (Blanks(indent) + NodeText(n, indent, x)), Data, size), below, l)
         == Reading(cfg, Ahead(x, Data, NodeSize(n, indent, Grown(size, 1 + indent)).value), below, AfterNode(l, n))
    decreases n, 1
  {
    hide Reading, PlainName, NodeSize, AfterNode, Blanks, Grown, PropsText, KidsText, CloseText;
    ReadLineBreak(cfg, indent, NodeText(n, indent, x)[1..], size, below, l);
    assert "<" + NodeText(n, indent, x)[1..] == NodeText(n, indent, x);
    ParseNode(cfg, n, indent, x, Grown(size, 1 + indent), below, l);
  }

  // ----- trees that are too deep

  lemma CloseTextStart(name: string, indent: nat, x: string)
    ensures CloseText(name, indent, x) != ""
  {
    hide Blanks;
  }

  /** One tag too many: the parse fails, and only what was complete at the top level is left. */
  lemma {:induction false} ParseDeepNode(cfg: Config, n: Node, indent: nat, x: string, size: Size, below: seq<Level>,
          l: Level)
    requires |below| + 1 <= MAX_RECURSION < |below| + 1 + Depth(n) && Printable(cfg, n)
             && NodeSize(n, indent, size).Some?
    requires l.state == AtIdle && !cfg.multiText && x != ""
    ensures Reading(cfg, Ahead(NodeText(n, indent, x), Normal, size), below, l)
            == Finished(false, Bottom(below, l).node)
    decreases n
  {
    hide Reading, PlainName, AfterTag, Blanks, PropsText, PropsSize, KidsText, KidsSize, Grown, CloseText;
    var close := CloseText(n.name, indent, x);
    var kids := KidsText(n.child, indent + 2, close);
    var behind := PropsSize(n.props, indent + 2 + |n.name|, size).value;
    ParseTag(cfg, n, indent, kids, size, below, l);
    CloseTextStart(n.name, indent, x);
    KidsTextStart(n.child, indent + 2, close);
    AfterTagKeeps(l, n);
    ParseOpen(cfg, kids, behind, below, AfterTag(l, n));
    if |below| + 2 <= MAX_RECURSION {
      ParseDeepKids(cfg, n.child, indent + 2, close, behind, below + [AfterTag(l, n)], FRESH);
    }
  }

  lemma NodeTextStart(n: Node, indent: nat, x: string)
    requires n.Element?
    ensures var s := NodeText(n, indent, x); s != "" && s == "<" + s[1..]
  {
    hide PropsText, KidsText, CloseText;
  }

  lemma {:induction false} ParseDeepKids(cfg: Config, nodes: seq<Node>, indent: nat, x: string, size: Size,
          below: seq<Level>, l: Level)
    requires below != [] && |below| + 1 <= MAX_RECURSION < |below| + 1 + MaxDepth(nodes)
    requires KidsSize(nodes, indent, size).Some?
    requires forall i :: 0 <= i < |nodes| ==> Printable(cfg, nodes[i])
    requires l.state == AtIdle && l.node.data == None && !cfg.multiText && x != ""
    ensures Reading(cfg, Ahead(KidsText(nodes, indent, x), Data, size), below, l) == Finished(false, below[0].node)
    decreases nodes
  {
    hide Reading, PlainName, NodeText, NodeSize, AfterNode, Blanks, Grown;
    var n, rest := nodes[0], KidsText(nodes[1..], indent, x);
    var behind := Grown(size, 1 + indent);
    KidsTextStart(nodes[1..], indent, x);
    if |below| + 1 + Depth(n) <= MAX_RECURSION {
      ParseKid(cfg, n, indent, rest, size, below, l);
      AfterNodeAppends(l, n);
      ParseDeepKids(cfg, nodes[1..], indent, x, NodeSize(n, indent, behind).value, below, AfterNode(l, n));
    } else {
      NodeTextStart(n, indent, rest);
      ReadLineBreak(cfg, indent, NodeText(n, indent, rest)[1..], size, below, l);
      ParseDeepNode(cfg, n, indent, rest, behind, below, l);
    }
  }

  // ----- the round trip

  lemma DumpIsNodeText(cfg: Config, n: Node)
    requires Printable(cfg, n)
    ensures DumpNode(n, 0) == NodeText(n, 0, "\n")
  {
    hide NodeText, DumpNode, PlainName;
    NodeTextIsDump(cfg, n, 0, "");
    assert "\n" + "" == "\n";
    assert Blanks(0) + NodeText(n, 0, "\n") == NodeText(n, 0, "\n");
    assert DumpNode(n, 0) + "" == DumpNode(n, 0);
  }

  lemma LastLexed(size: Size)
    ensures LexData("\n", "", false, size) == Ended(Lexed(TEof, "\n", "", Data, false))
  {
    assert LexData("\n", "", false, size) == LexData("", "\n", false, size);
  }

  /** Behind the tree there is one more line break. */
  lemma {:induction false} LastLineBreak(size: Size)
    ensures Tokens(Ahead("\n", Data, size)) == []
  {
    hide Lex, Tokens, LexData;
    var i := Ahead("\n", Data, size);
    LastLexed(size);
    CallOfPass(i, Lexed(TEof, "\n", "", Data, false));
    TokensStep(i);
  }

  lemma NothingToCollapse(l: Level)
    ensures Collapse([], l, 0) == l
  {
  }

  lemma NotAQuestion(cfg: Config, n: Node)
    requires Printable(cfg, n)
    ensures !IsQuestion(n)
  {
    PlainNameIsRest(cfg, n.name);
  }

  lemma RotatedSingle(n: Node)
    ensures Rotated([n]) == [n]
  {
    assert [n][..0] == [];
  }

  lemma SingleElement(cfg: Config, n: Node)
    requires Printable(cfg, n)
    ensures RootOf([n]) == Some([n])
  {
    hide PlainName, IsQuestion, Rotated;
    NotAQuestion(cfg, n);
    assert [n][..0] == [];
    assert Elements([n]) == Elements([]) + [n] == [n];
    RotatedSingle(n);
  }

  lemma NoRoot()
    ensures RootOf([]) == None
  {
  }

  /**
   What the printer writes for a tree whose names and values fit the token
   buffer is read back as the same tree, and that for exactly the trees whose
   depth the parser can follow.
   */
  lemma ParseUndoesDump(cfg: Config, n: Node)
    requires Printable(cfg, n) && !cfg.multiText && NodeSize(n, 0, TOKEN_SIZE).Some?
    ensures ParseDocument(cfg, DumpNode(n, 0)) == if Depth(n) <= 25 then Success([n]) else Failure
  {
    hide Tokens, NodeText, Run, AfterNode, DumpNode, NodeSize, RootOf, PlainName, Collapse;
    DumpIsNodeText(cfg, n);
    ParseOfMachine(cfg, DumpNode(n, 0));
    if Depth(n) <= 25 {
      ParseNode(cfg, n, 0, "\n", TOKEN_SIZE, [], FRESH);
      AfterNodeAppends(FRESH, n);
      LastLineBreak(NodeSize(n, 0, TOKEN_SIZE).value);
      NoTokens(cfg, [], AfterNode(FRESH, n));
      NothingToCollapse(AfterNode(FRESH, n));
      assert [] + [n] == [n];
      SingleElement(cfg, n);
    } else {
      ParseDeepNode(cfg, n, 0, "\n", TOKEN_SIZE, [], FRESH);
      NoRoot();
    }
  }
}
