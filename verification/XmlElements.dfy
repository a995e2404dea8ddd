/**
 What the parser makes of single elements: of one that closes itself, of
 text with references and CDATA sections, of escaped values in either kind of
 quotes, of attributes without a value and of tokens that do not belong; and
 all of it for the parse that the playlist handlers use.
 */
module XmlElements {
  import opened CText
  import opened XmlTree
  import opened L = XmlLexer
  import opened XmlBuilder
  import opened XmlMachine
  import opened XmlRoundTrip
  import opened XmlRoot
  import opened XmlSyntax
  import opened XmlSyntaxLexing
  import opened XmlDocuments
  import opened XmlRelaxed
  import CommentBlanker
  import Entities

  // ----- elements that close themselves

  /** `<name attributes/>` leaves the parser where `<name attributes></name>` does, whatever follows. */
  lemma LeafIsEmptyTag(cfg: Config, name: string, attrs: seq<Attr>, tail: string, x: string, place: Place, size: Size,
          below: seq<Level>, l: Level)
    requires IsName(name, size) && AreAttrs(attrs, size) && IsGap(tail, size)
    requires l.state == AtIdle && |below| + 2 <= MAX_RECURSION
    ensures Reading(cfg, Point("<" + (name + AttrsText(attrs, tail + ("/>" + x))), place, size), below, l)
         == Reading(cfg, Point("<" + (name + AttrsText(attrs, tail + (">" + ("</" + (name + (">" + x)))))), place,
                size), below, l)
  {
    hide Reading, AttrsText, AreAttrs, IsName, IsGap, AfterPieces, ElementOf;
    var leaf, tag := Leaf(name, attrs, tail), Tag(name, attrs, tail, [], name);
    assert ItemsText([], "</" + (name + (">" + x))) == "</" + (name + (">" + x));
    ReadItem(cfg, leaf, x, place, size, below, l);
    ReadItem(cfg, tag, x, place, size, below, l);
  }

  // ----- single elements

  lemma OneItem(i: Item, trailing: string)
    ensures ItemsText([i], trailing) == ItemText(i, trailing)
    ensures NodeItems([i]) == if IsNodeItem(i) then [i] else []
    ensures ItemsDepth([i]) == ItemDepth(i)
  {
    hide ItemText;
    assert [i][1..] == [];
  }

  /** The text of one element is read as that element, whatever text is behind it. */
  lemma ElementIsRead(cfg: Config, i: Item, trailing: string)
    requires (i.Tag? || i.Leaf?) && IsItem(cfg, i, TOKEN_SIZE) && ItemDepth(i) <= 25 && '<' !in trailing
    ensures ParseDocument(cfg, ItemText(i, trailing)) == Success([NodeOf(cfg, i)])
  {
    hide ParseDocument, ItemText, NodeOf, IsItem, ItemDepth;
    OneItem(i, trailing);
    assert [i][1..] == [];
    assert AreItems(cfg, [i], InMarkup, TOKEN_SIZE);
    DocumentIsRead(cfg, [i], trailing);
    assert NodeItems([i])[..0] == [];
    NodesOfMore(cfg, [], []);
    assert [NodeOf(cfg, i)] + [] == [NodeOf(cfg, i)];
  }

  /** A piece of an element's text: escaped, or in a CDATA section. */
  datatype Stretch = Escaped(text: string) | Raw(text: string)

  predicate IsStretch(r: Stretch) {
    && NulFree(r.text)
    && match r
       case Escaped(text) => |Entities.Escape(text, Entities.NoQuote)| < TOKEN_SIZE
       case Raw(text) => |text| < TOKEN_SIZE && forall k :: 0 <= k < |text| ==> !OccursAt(text, "]]>", k)
  }

  /** Escaped pieces are set apart by sections. */
  predicate AreStretches(parts: seq<Stretch>) {
    && (forall k :: 0 <= k < |parts| ==> IsStretch(parts[k]))
    && forall k :: 0 < k < |parts| ==> parts[k - 1].Raw? || parts[k].Raw?
  }

  function StretchItem(r: Stretch): Item {
    match r
    case Escaped(text) => Chars(Entities.Escape(text, Entities.NoQuote))
    case Raw(text) => Section(text)
  }

  function StretchItems(parts: seq<Stretch>): (items: seq<Item>)
    ensures |items| == |parts|
  {
    if parts == [] then [] else [StretchItem(parts[0])] + StretchItems(parts[1..])
  }

  /** `<name>` and the pieces; the close tag is behind it. */
  function StretchText(parts: seq<Stretch>, x: string): string {
    if parts == [] then x
    else
      match parts[0]
      case Escaped(text) => Entities.Escape(text, Entities.NoQuote) + StretchText(parts[1..], x)
      case Raw(text) => "<![CDATA[" + (text + ("]]>" + StretchText(parts[1..], x)))
  }

  function AllText(parts: seq<Stretch>): string {
    if parts == [] then "" else parts[0].text + AllText(parts[1..])
  }

  lemma EscapedHasNoTag(text: string)
    requires NulFree(text)
    ensures var e := Entities.Escape(text, Entities.NoQuote); '<' !in e && NulFree(e)
  {
    hide Entities.Escape;
    Entities.EscapeIsClean(text, Entities.NoQuote);
    var e := Entities.Escape(text, Entities.NoQuote);
    forall k | 0 <= k < |e|
      ensures e[k] != '<' && e[k] != '\0'
    {
      assert Entities.IsCleanAt(e, Entities.NoQuote, k);
    }
  }

  lemma StretchIsItem(cfg: Config, r: Stretch)
    requires IsStretch(r)
    ensures IsItem(cfg, StretchItem(r), TOKEN_SIZE) && Meaning(cfg, StretchItem(r)) == [Words(r.text)]
  {
    hide Entities.Escape, Entities.Decode, OccursAt;
    if r.Escaped? {
      EscapedHasNoTag(r.text);
      Entities.DecodeUndoesEscape(r.text, Entities.NoQuote);
    }
  }

  lemma {:induction false} StretchesAreItems(cfg: Config, parts: seq<Stretch>, place: Place, x: string)
    requires AreStretches(parts) && place != InMarkup && (parts != [] && parts[0].Escaped? ==> place == InData)
    ensures AreItems(cfg, StretchItems(parts), place, TOKEN_SIZE)
            && ItemsText(StretchItems(parts), x) == StretchText(parts, x)
    ensures ItemsDepth(StretchItems(parts)) == 0 && NodeItems(StretchItems(parts)) == []
    decreases |parts|
  {
    hide Entities.Escape, IsStretch;
    if parts != [] {
      StretchIsItem(cfg, parts[0]);
      assert StretchItems(parts)[1..] == StretchItems(parts[1..]);
      StretchesAreItems(cfg, parts[1..], if parts[0].Escaped? then BeforeTag else InData, x);
    }
  }

  lemma {:induction false} StretchesMean(cfg: Config, parts: seq<Stretch>)
    requires AreStretches(parts)
    ensures var ps := Meanings(cfg, StretchItems(parts));
            LeadingText(ps, cfg.multiText) == AllText(parts) && Nodes(ps) == [] && FromFirstChild(ps) == []
    decreases |parts|
  {
    hide IsStretch, StretchItem;
    if parts != [] {
      StretchIsItem(cfg, parts[0]);
      StretchesMean(cfg, parts[1..]);
      var rest := Meanings(cfg, StretchItems(parts[1..]));
      assert StretchItems(parts)[1..] == StretchItems(parts[1..]);
      assert Meanings(cfg, StretchItems(parts)) == [Words(parts[0].text)] + rest;
      assert ([Words(parts[0].text)] + rest)[1..] == rest;
    }
  }

  /**
   The data of an element is its text in the order it is written, references
   resolved outside of CDATA sections only, without the white space in front.
   */
  lemma TextIsRead(cfg: Config, name: string, parts: seq<Stretch>, trailing: string)
    requires IsName(name, TOKEN_SIZE) && AreStretches(parts) && '<' !in trailing
    ensures var text := SkipSpaces(AllText(parts));
            ParseDocument(cfg, "<" + (name + (">" + StretchText(parts, "</" + (name + (">" + trailing))))))
            == Success([Element(Fold(cfg, name), if text == "" then None else Some(text), [], [])])
  {
    hide ParseDocument, IsName, Fold, SkipSpaces, StretchText, AreStretches, AllText, LeadingText;
    var i := Tag(name, [], "", StretchItems(parts), name);
    var inner := StretchText(parts, "</" + (name + (">" + trailing)));
    StretchesAreItems(cfg, parts, InData, "</" + (name + (">" + trailing)));
    assert "" + (">" + inner) == ">" + inner;
    assert ItemText(i, trailing) == "<" + (name + (">" + inner));
    assert AreAttrs([], TOKEN_SIZE) && IsGap("", TOKEN_SIZE);
    ElementIsRead(cfg, i, trailing);
    StretchesMean(cfg, parts);
    assert PropsOfAttrs(cfg, []) == [];
    assert Mixed([], "") == [];
  }

  // ----- values

  function QuoteTypeOf(quote: char): Entities.QuoteType {
    if quote == '\'' then Entities.SingleQuote else Entities.DoubleQuote
  }

  /** A value escaped for the quotes around it is read as it was. */
  lemma EscapedValueIsRead(quote: char, value: string, size: Size)
    requires (quote == '\'' || quote == '\"') && NulFree(value)
    requires |Entities.Escape(value, QuoteTypeOf(quote))| < size
    ensures var v := Quoted(quote, Entities.Escape(value, QuoteTypeOf(quote)));
            IsValue(v, size) && ValueOf(v) == value
  {
    hide Entities.Escape, Entities.Decode;
    var e := Entities.Escape(value, QuoteTypeOf(quote));
    Entities.DecodeUndoesEscape(value, QuoteTypeOf(quote));
    Entities.EscapeIsClean(value, QuoteTypeOf(quote));
    forall k | 0 <= k < |e|
      ensures e[k] != quote && e[k] != '\0'
    {
      assert Entities.IsCleanAt(e, QuoteTypeOf(quote), k);
    }
  }

  /** `name='value'` or `name="value"`, escaped. */
  function WrittenProp(p: (string, string), quote: char): Attr {
    Attr(" ", p.0, "", "", Quoted(quote, Entities.Escape(p.1, QuoteTypeOf(quote))))
  }

  function WrittenProps(ps: seq<(string, string)>, quote: char): (attrs: seq<Attr>)
    ensures |attrs| == |ps|
  {
    seq(|ps|, k requires 0 <= k < |ps| => WrittenProp(ps[k], quote))
  }

  predicate AreProps(ps: seq<(string, string)>, quote: char) {
    forall k :: 0 <= k < |ps| ==>
      && IsName(ps[k].0, TOKEN_SIZE) && NulFree(ps[k].1)
      && |Entities.Escape(ps[k].1, QuoteTypeOf(quote))| < TOKEN_SIZE
  }

  /** An element that closes itself, with the given values in quotes of either kind. */
  lemma PropsAreRead(cfg: Config, name: string, ps: seq<(string, string)>, quote: char, trailing: string)
    requires (quote == '\'' || quote == '\"') && IsName(name, TOKEN_SIZE) && AreProps(ps, quote) && '<' !in trailing
    ensures var props := seq(|ps|, k requires 0 <= k < |ps| => Prop(Fold(cfg, ps[k].0), Some(ps[k].1)));
            ParseDocument(cfg, "<" + (name + AttrsText(WrittenProps(ps, quote), "/>" + trailing)))
            == Success([Element(Fold(cfg, name), None, props, [])])
  {
    hide ParseDocument, IsName, Fold, Entities.Escape, AttrsText, IsValue, ValueOf;
    var attrs := WrittenProps(ps, quote);
    var i := Leaf(name, attrs, "");
    forall k | 0 <= k < |ps|
      ensures IsAttr(attrs[k], TOKEN_SIZE) && PropOf(cfg, attrs[k]) == Prop(Fold(cfg, ps[k].0), Some(ps[k].1))
    {
      EscapedValueIsRead(quote, ps[k].1, TOKEN_SIZE);
    }
    assert "" + ("/>" + trailing) == "/>" + trailing;
    ElementIsRead(cfg, i, trailing);
    assert PropsOfAttrs(cfg, attrs) == seq(|ps|, k requires 0 <= k < |ps| => Prop(Fold(cfg, ps[k].0), Some(ps[k].1)));
    assert Mixed([], "") == [];
  }

  // ----- attributes without a value

  function EndToken(q: bool): Token {
    if q then Token(TTiStop, "?>") else Token(TMStop1, ">")
  }

  lemma FlagActs(cfg: Config, names: seq<string>, l: Level, name: string, q: bool)
    requires l.state == AttrState(q)
    ensures var l1 := l.(state := EqualsState(q), attr := Fold(cfg, name));
            && Act1(cfg, names, l, Token(TIdent, name)) == Stay(l1)
            && Act1(cfg, names, l1, Token(TMStop2, "/>")) == Fail
            && Act1(cfg, names, l1, EndToken(q))
               == Act1(cfg, names, l.(attr := l1.attr, props := l.props + [Prop(l1.attr, None)]), EndToken(q))
            && forall other :: Act1(cfg, names, l1, Token(TIdent, other)) == Act1(cfg, names, l, Token(TIdent, other))
  {
    hide Fold;
  }

  lemma EndActs(cfg: Config, names: seq<string>, l: Level, q: bool)
    requires l.state == AttrState(q)
    ensures Act1(cfg, names, l, EndToken(q)) == if q then Stay(Link(l, EMPTY)) else Open(l)
  {
    hide Link;
  }

  /**
   An attribute without a value is a property right in front of `>` or `?>`, is
   forgotten in front of another attribute, and is an error in front of `/>`.
   */
  lemma AttributeWithoutValue(cfg: Config, name: string, other: string, q: bool, ts: seq<Token>, below: seq<Level>,
                              l: Level)
    requires l.state == AttrState(q)
    ensures Run(cfg, [Token(TIdent, name), EndToken(q)] + ts, below, l)
         == Run(cfg, [EndToken(q)] + ts, below,
                l.(attr := Fold(cfg, name), props := l.props + [Prop(Fold(cfg, name), None)]))
    ensures Run(cfg, [Token(TIdent, name), Token(TIdent, other)] + ts, below, l)
         == Run(cfg, [Token(TIdent, other)] + ts, below, l)
    ensures Run(cfg, [Token(TIdent, name), Token(TMStop2, "/>")] + ts, below, l)
         == Finished(false, Bottom(below, l).node)
  {
    hide Run, Act1, Names, Fold, AttrState, EqualsState, Link;
    var t := Token(TIdent, name);
    var l1 := l.(state := EqualsState(q), attr := Fold(cfg, name));
    var l2 := l.(attr := l1.attr, props := l.props + [Prop(l1.attr, None)]);
    FlagActs(cfg, Names(below), l, name, q);
    FlagActs(cfg, Names(below), l, other, q);
    forall next: Token
      ensures Run(cfg, [t, next] + ts, below, l) == Run(cfg, [next] + ts, below, l1)
    {
      assert [t, next] + ts == [t] + ([next] + ts);
      RunStep(cfg, t, [next] + ts, below, l);
    }
    RunStep(cfg, EndToken(q), ts, below, l1);
    RunStep(cfg, EndToken(q), ts, below, l2);
    RunStep(cfg, Token(TIdent, other), ts, below, l1);
    RunStep(cfg, Token(TIdent, other), ts, below, l);
    RunStep(cfg, Token(TMStop2, "/>"), ts, below, l1);
    EndActs(cfg, Names(below), l2, q);
  }

  // ----- where text and names may not stand

  lemma FailedStep(cfg: Config, i: Input, c: Call, below: seq<Level>, l: Level)
    requires Lex(i) == c && c.kind != TEof && c.kind != TError && NulFree(c.raw)
    requires Act1(cfg, Names(below), l, Token(c.kind, c.raw)) == Fail
    ensures Reading(cfg, i, below, l) == Finished(false, Bottom(below, l).node)
  {
    hide Lex, Act1, Names, Tokens, Run;
    TokenOfNulFree(c);
    ReadCall(cfg, i, c, below, l);
  }

  lemma WordFails(cfg: Config, names: seq<string>, l: Level, w: string)
    ensures l.state == AtIdle ==> Act1(cfg, names, l, Token(TIdent, w)) == Fail
    ensures l.state == AtQNode ==> Act1(cfg, names, l, Token(TTiStop, w)) == Fail
  {
  }

  /** Behind a comment there is no character data: a word there is an error. */
  lemma TextBehindCommentFails(cfg: Config, parts: seq<Part>, w: string, x: string, size: Size, below: seq<Level>,
                               l: Level)
    requires AreParts(parts, size) && l.state == AtIdle && x != "" && EndsIdent(x[0])
    requires w != "" && |w| < size && forall k :: 0 <= k < |w| ==> IsWordChar(w[k])
    ensures Reading(cfg, In("<!--" + PartsText(parts, "-->" + (w + x)), false, size), below, l)
         == Finished(false, Bottom(below, l).node)
  {
    hide Reading, Lex, Act1, Names, AreParts, PartsText, IsWordChar, EndsIdent;
    ReadSkipped(cfg, parts, true, w + x, size, below, l);
    LexWord(w, x, false, size);
    WordIsNulFree(w);
    WordFails(cfg, Names(below), l, w);
    FailedStep(cfg, In(w + x, false, size), Call(TIdent, w, In(x, false, size)), below, l);
  }

  /** A `?>` right behind the name is taken for a part of it: `<?xml?>` is an error. */
  lemma QuestionNeedsGap(cfg: Config, w: string, x: string, size: Size, below: seq<Level>, l: Level)
    requires w != "" && |w| + 1 < size && l.state == AtIdle
    requires w[0] != '!' && forall k :: 0 <= k < |w| ==> IsWordChar(w[k])
    ensures Reading(cfg, In("<?" + (w + ("?>" + x)), false, size), below, l)
         == Finished(false, Bottom(below, l).node)
  {
    hide Reading, Lex, Act1, Names;
    var l1 := l.(state := AtQNode);
    assert (w + ("?>" + x))[0] == w[0];
    ReadTagMark(cfg, w + ("?>" + x), size, below, l, true);
    LexWordWithMark(w, x, false, size);
    WordFails(cfg, Names(below), l1, w + "?>");
    FailedStep(cfg, In(w + ("?>" + x), false, size), Call(TTiStop, w + "?>", Input(x, Data, false, size)), below, l1);
  }

  // ----- tokens that do not belong

  /** The tokens with which a state goes on. */
  function Accepted(state: ParserState): set<Kind> {
    match state
    case AtIdle =>
      {TEol, TSepar, TEof, TMStart1, TMStart2, TCStart, TTiStart, TDoctypeStart, TCdataStart, TData}
    case AtNode | AtQNode | AtNodeClose => {TIdent}
    case AtAttribute => {TEol, TSepar, TIdent, TMStop1, TMStop2}
    case AtQAttribute => {TEol, TSepar, TIdent, TTiStop}
    case AtAttributeEquals => {TEol, TSepar, TEqual, TIdent, TMStop1}
    case AtQAttributeEquals => {TEol, TSepar, TEqual, TIdent, TTiStop}
    case AtString | AtQString => {TEol, TSepar, TString, TIdent}
    case AtTagTerm | AtTagTermIgnore => {TMStop1}
    case AtCdata => {TCdataStop}
    case AtComment | AtDoctype =>
      {TError, TEof, TEol, TSepar, TMStart1, TMStart2, TMStop1, TMStop2, TEqual, TString, TIdent, TData, TCStart,
       TCStop, TTiStart, TTiStop, TDoctypeStart, TCdataStart, TCdataStop}
  }

  /** Any other token ends the parse, and so does a close tag out of order unless the parse is relaxed. */
  lemma FailsIff(cfg: Config, names: seq<string>, l: Level, t: Token)
    requires names != []
    ensures Act1(cfg, names, l, t) == Fail <==>
            || t.kind !in Accepted(l.state)
            || (l.state == AtNodeClose && !cfg.relaxed && names[|names| - 1] != Fold(cfg, t.text))
  {
    hide Fold, AppendText, Entities.Decode, Link;
  }

  // ----- the parse that the handlers use

  /** Without regard to case, capital letters (65 to 90) stand for small ones, and nothing else changes. */
  lemma FoldIsUpper(cfg: Config, s: string, k: nat)
    requires k < |s|
    ensures |Fold(cfg, s)| == |s|
    ensures var c := s[k] as int;
            Fold(cfg, s)[k] as int == if cfg.caseInsensitive && 97 <= c <= 122 then c - 97 + 65 else c
  {
    LettersChangeCase(s, k);
  }

  lemma NothingBlanked(s: string)
    requires forall k :: !CommentBlanker.IsOpen(s, k)
    ensures CommentBlanker.Cleaned(s) == s
  {
    hide CommentBlanker.NextRound, CommentBlanker.Cleaned;
    CommentBlanker.RoundIsFirst(s);
    match CommentBlanker.NextRound(s)
    case Stop => CommentBlanker.CleanedStops(s);
    case Skip(at, close) => CommentBlanker.RoundBounds(s, at, close);
    case Blank(at, close) => CommentBlanker.RoundBounds(s, at, close);
  }

  /**
   A document without comments, read by the handlers: its element with names in
   capital letters and with its text between the nodes.
   */
  lemma RelaxedIsRead(items: seq<Item>, trailing: string)
    requires IsDocument(Config(true, true, true), items, trailing) && HasSingleRoot(NodeItems(items))
    requires forall k :: !CommentBlanker.IsOpen(ItemsText(items, trailing), k)
    ensures var (cfg, ns) := (Config(true, true, true), NodeItems(items));
            ParseRelaxed(ItemsText(items, trailing))
            == Success([NodeOf(cfg, ns[|ns| - 1])] + NodesOf(cfg, ns[..|ns| - 1]))
  {
    hide ParseDocument, IsDocument, ItemsText, NodeOf, CommentBlanker.Cleaned;
    NothingBlanked(ItemsText(items, trailing));
    DocumentIsRead(Config(true, true, true), items, trailing);
  }
}
