/**
 Texts for which the parser does what one might not expect: values that the
 token buffer cuts, one that it seems not to cut, and an error behind the root.
 */
module XmlExamples {
  import opened CText
  import opened XmlTree
  import opened L = XmlLexer
  import opened XmlBuilder
  import opened XmlMachine
  import opened XmlPrinter
  import opened XmlRoundTripLexing
  import opened XmlRoundTrip
  import opened XmlMarks
  import opened XmlPrinted
  import opened XmlRoundTripExact
  import XmlRoot
  import Entities

  // ----- an element with one property

  function OneProp(name: string, attr: string, value: string): (n: Node)
    ensures n.Element?
  {
    Element(name, None, [Prop(attr, Some(value))], [])
  }

  /** What the printer writes behind the value. */
  function Behind(name: string): string {
    ">" + CloseText(name, 0, "\n")
  }

  lemma OnePropsText(p: Prop, pad: nat, r: string)
    ensures PropsText([p], pad, r) == p.name + ("='" + (Quoted(p.value.GetOr("")) + ("'" + r)))
  {
    hide Quoted;
    assert [p][1..] == [];
    assert PropsText([], pad, r) == r;
    assert GapText([], pad, r) == r;
  }

  lemma OnePropTextAt(name: string, attr: string, value: string, indent: nat, x: string)
    ensures NodeText(OneProp(name, attr, value), indent, x)
         == "<" + (name + (" " + (attr + ("='" + (Quoted(value) + ("'" + (">" + CloseText(name, indent, x))))))))
  {
    hide Quoted, CloseText;
    OnePropsText(Prop(attr, Some(value)), indent + 2 + |name|, ">" + CloseText(name, indent, x));
    assert KidsText([], indent + 2, CloseText(name, indent, x)) == CloseText(name, indent, x);
  }

  lemma OnePropText(name: string, attr: string, value: string)
    ensures NodeText(OneProp(name, attr, value), 0, "\n")
         == "<" + (name + (" " + (attr + ("='" + (Quoted(value) + ("'" + Behind(name)))))))
  {
    hide Quoted, CloseText, NodeText;
    OnePropTextAt(name, attr, value, 0, "\n");
  }

  /** The activation in front of the value. */
  function AtValue(name: string, attr: string): Level {
    FRESH.(state := AtString, name := name, attr := attr)
  }

  lemma OneIsPrintable(cfg: Config, name: string, attr: string, value: string)
    requires PlainName(cfg, name) && PlainName(cfg, attr) && NulFree(value)
    ensures Printable(cfg, OneProp(name, attr, value))
  {
    hide PlainName;
  }

  /** A start tag up to the value of its first property. */
  lemma ReadTagUpToValue(cfg: Config, name: string, attr: string, e: string, size: Size, below: seq<Level>, l: Level)
    requires PlainName(cfg, name) && PlainName(cfg, attr) && |name| < size && |attr| < size && l.state == AtIdle
    ensures Reading(cfg, Ahead("<" + (name + (" " + (attr + ("=" + e)))), Normal, size), below, l)
         == Reading(cfg, Ahead(e, Normal, size), below, l.(state := AtString, name := name, attr := attr, props := []))
  {
    hide Reading, PlainName, Act1, Names, Lex, Fold;
    var l1, l2 := l.(state := AtNode), l.(state := AtAttribute, name := name, props := []);
    var l3 := l2.(state := AtAttributeEquals, attr := attr);
    var text := attr + ("=" + e);
    PlainNameFolds(cfg, name);
    PlainNameFolds(cfg, attr);
    NameActs(cfg, Names(below), l1, name);
    NameActs(cfg, Names(below), l2, attr);
    TagNameStart(cfg, name, " " + text);
    PlainNameIsRest(cfg, attr);
    EqualEndsIdent();
    ReadTagStart(cfg, name + (" " + text), size, below, l);
    ReadName(cfg, name, " " + text, size, below, l1, l2);
    ReadBlanks(cfg, " ", text, size, below, l2);
    OneBlank(size);
    ReadName(cfg, attr, "=" + e, size, below, l2, l3);
    ReadEquals(cfg, e, size, below, l3);
  }

  lemma ReadUpToValue(cfg: Config, name: string, attr: string, value: string)
    requires PlainName(cfg, name) && PlainName(cfg, attr) && |name| < TOKEN_SIZE && |attr| < TOKEN_SIZE
             && NulFree(value)
    ensures Run(cfg, TokensOf(DumpNode(OneProp(name, attr, value), 0)), [], FRESH)
         == Reading(cfg, Ahead("'" + (Quoted(value) + ("'" + Behind(name))), Normal, TOKEN_SIZE), [],
             AtValue(name, attr))
  {
    hide Run, Tokens, Quoted, PlainName, DumpNode, NodeText, CloseText;
    var n := OneProp(name, attr, value);
    OneIsPrintable(cfg, name, attr, value);
    DumpIsNodeText(cfg, n);
    OnePropText(name, attr, value);
    var e := "'" + (Quoted(value) + ("'" + Behind(name)));
    assert "='" + (Quoted(value) + ("'" + Behind(name))) == "=" + e;
    ReadTagUpToValue(cfg, name, attr, e, TOKEN_SIZE, [], FRESH);
  }

  /** A value that is no more than an identifier, or a string, read in front of the rest. */
  lemma ValueRead(cfg: Config, l: Level, t: Token, names: seq<string>)
    requires names != [] && l.state == AtString && t.kind in {TIdent, TString}
    ensures Act1(cfg, names, l, t) == Stay(WithProp(l, Prop(l.attr, Some(Entities.Decode(t.text)))))
  {
    hide Entities.Decode;
  }

  /** The rest of the text, once the value is read. */
  lemma FinishOne(cfg: Config, name: string, size: Size, l: Level)
    requires PlainName(cfg, name) && |name| < size && l.state == AtAttribute && l.name == name && !cfg.multiText
    ensures Reading(cfg, Ahead(Behind(name), Normal, size), [], l) == Running([], Link(l, EMPTY))
  {
    hide Run, Tokens, PlainName, CloseText, Blanks;
    CloseTextStart(name, 0, "\n");
    ParseOpen(cfg, CloseText(name, 0, "\n"), size, [], l);
    assert [] + [l] == [l];
    ParseClose(cfg, name, 0, "\n", size, [], l, FRESH);
    LastLineBreak(Grown(size, 1));
    NoTokens(cfg, [], Link(l, EMPTY));
  }

  lemma OutcomeOfOne(cfg: Config, text: string, l: Level, n: Node)
    requires Run(cfg, TokensOf(text), [], FRESH) == Running([], l) && l.state == AtIdle
    requires l.node.child == [n] && n.Element? && Printable(cfg, n)
    ensures XmlRoot.ParseDocument(cfg, text) == XmlRoot.Success([n])
  {
    hide Run, Tokens, Printable, XmlRoot.RootOf;
    XmlRoot.ParseOfMachine(cfg, text);
    SingleElement(cfg, n);
  }

  // ----- a value that is cut

  lemma OrdinaryIsQuoted(v: string)
    requires OrdinaryName(v) && PlainChars(v)
    ensures Quoted(v) == v && NulFree(v)
  {
    hide Entities.Decode, Entities.Escape;
    assert forall i :: 0 <= i < |v| ==> !EndsIdent(v[i]);
    OrdinaryStays(v);
    DecodeOfPlain(v);
  }

  lemma CutIsRest(v: string)
    requires v != "" && OrdinaryName(v) && PlainChars(v)
    ensures var w := v + "'"; NameRest(w) && NulFree(w) && forall i :: 0 <= i < |w| ==> w[i] != '&'
  {
    QuoteIsLiteral();
  }

  /** What is left of a value behind a full buffer is an identifier, the quote behind it included. */
  lemma CutValue(cfg: Config, v: string, x: string, size: Size, l: Level)
    requires v != "" && OrdinaryName(v) && PlainChars(v) && |v| + 1 < size && x != "" && EndsIdent(x[0])
             && l.state == AtString
    ensures Reading(cfg, Ahead(v + ("'" + x), Normal, size), [], l)
         == Reading(cfg, Ahead(x, Normal, size), [], WithProp(l, Prop(l.attr, Some(v + "'"))))
  {
    hide Reading, Lex, Act1, Names, EndsIdent, OrdinaryName, PlainChars;
    var w := v + "'";
    assert v + ("'" + x) == w + x;
    CutIsRest(v);
    LexName(w, x, size);
    var c := Call(TIdent, w, Ahead(x, Normal, size));
    TokenOfNulFree(c);
    ValueRead(cfg, l, Token(TIdent, w), Names([]));
    DecodeOfPlain(w);
    ReadStay(cfg, Ahead(w + x, Normal, size), c, [], l, WithProp(l, Prop(l.attr, Some(w))));
  }

  lemma RestIsPlain(v: string)
    requires OrdinaryName(v) && PlainChars(v) && |v| > TOKEN_SIZE
    ensures OrdinaryName(v[TOKEN_SIZE..]) && PlainChars(v[TOKEN_SIZE..])
  {
    hide EndsIdent, OrdinaryChar;
  }

  lemma LinkedOne(l: Level, n: Node)
    requires n.Element? && n.data == None && n.child == [] && l.name == n.name && l.props == n.props && l.node == EMPTY
    ensures var l' := Link(l, EMPTY); l'.state == AtIdle && l'.node.child == [n]
  {
    assert [] + [n] == [n];
  }

  /**
   A long value comes back without its first 64 KiB, and with the quote behind
   it: the rest is read as an identifier.
   */
  lemma LongValueIsCut(cfg: Config, name: string, attr: string, v: string)
    requires PlainName(cfg, name) && PlainName(cfg, attr) && |name| < TOKEN_SIZE && |attr| < TOKEN_SIZE
             && !cfg.multiText
    requires OrdinaryName(v) && PlainChars(v) && TOKEN_SIZE < |v| < 3 * TOKEN_SIZE - 1
    ensures XmlRoot.ParseDocument(cfg, DumpNode(OneProp(name, attr, v), 0))
         == XmlRoot.Success([OneProp(name, attr, v[TOKEN_SIZE..] + "'")])
  {
    hide Run, Tokens, Quoted, PlainName, DumpNode, Lex, CloseText, OrdinaryName, PlainChars, XmlRoot.ParseDocument;
    var size: Size := 2 * TOKEN_SIZE;
    var rest := v[TOKEN_SIZE..];
    var l := AtValue(name, attr);
    var l' := WithProp(l, Prop(attr, Some(rest + "'")));
    OrdinaryIsQuoted(v);
    ReadUpToValue(cfg, name, attr, v);
    EscapedIsQuotable(v);
    LexString(v, Behind(name), TOKEN_SIZE);
    ReadSame(cfg, Ahead("'" + (v + ("'" + Behind(name))), Normal, TOKEN_SIZE),
        Ahead(rest + ("'" + Behind(name)), Normal, size), [], l);
    RestIsPlain(v);
    EndOfTagEndsIdent('>');
    CutValue(cfg, rest, Behind(name), size, l);
    FinishOne(cfg, name, size, l');
    CutIsRest(rest);
    OneIsPrintable(cfg, name, attr, rest + "'");
    LinkedOne(l', OneProp(name, attr, rest + "'"));
    OutcomeOfOne(cfg, DumpNode(OneProp(name, attr, v), 0), Link(l', EMPTY), OneProp(name, attr, rest + "'"));
  }

  lemma LettersArePlain()
    ensures OrdinaryChar('v') && !EndsIdent('v')
    ensures PlainName(Config(false, false, false), "a") && PlainName(Config(false, false, false), "b")
  {
  }

  /** Such a value: 70000 times the same letter. */
  lemma SeventyThousandLetters()
    ensures var v := seq(70000, _ => 'v');
            XmlRoot.ParseDocument(Config(false, false, false), DumpNode(OneProp("a", "b", v), 0))
            == XmlRoot.Success([OneProp("a", "b", seq(4464, _ => 'v') + "'")])
  {
    hide XmlRoot.ParseDocument, DumpNode;
    var v: string := seq(70000, _ => 'v');
    assert v[TOKEN_SIZE..] == seq(4464, _ => 'v');
    LettersArePlain();
    LongValueIsCut(Config(false, false, false), "a", "b", v);
  }

  // ----- a value that does not fit and comes back

  /** A value that ends like the text in front of the close tag of its own element. */
  function TagLike(letters: string): string {
    ">\n</" + letters
  }

  lemma TagLikeChars()
    ensures Entities.EscapeChar('>', Entities.SingleQuote) == "&gt;"
            && Entities.EscapeChar('<', Entities.SingleQuote) == "&lt;"
    ensures Entities.EscapeChar('\n', Entities.SingleQuote) == "\n"
            && Entities.EscapeChar('/', Entities.SingleQuote) == "/"
  {
  }

  lemma TagLikeQuoted(letters: string)
    requires OrdinaryName(letters) && PlainChars(letters)
    ensures Quoted(TagLike(letters)) == "&gt;\n&lt;/" + letters
  {
    hide Entities.EscapeChar, EndsIdent, OrdinaryChar, Entities.Escape;
    OrdinaryIsQuoted(letters);
    var s1, s2, s3 := "/" + letters, "<" + ("/" + letters), "\n" + ("<" + ("/" + letters));
    assert TagLike(letters) == ['>'] + s3 && s3 == ['\n'] + s2 && s2 == ['<'] + s1 && s1 == ['/'] + letters;
    EscapeOfMore('/', letters);
    EscapeOfMore('<', s1);
    EscapeOfMore('\n', s2);
    EscapeOfMore('>', s3);
    TagLikeChars();
  }

  lemma TagLikeText(letters: string)
    requires OrdinaryName(letters) && PlainChars(letters)
    ensures var v := TagLike(letters);
            && NulFree(v) && (forall i :: 0 <= i < |v| ==> v[i] != '\'' && v[i] != '&')
            && Behind(letters + "'") == v + ("'" + ">\n")
  {
    hide EndsIdent;
  }

  lemma OneDoesNotFit(n: Node)
    requires n.Element? && n.props != [] && |Quoted(n.props[0].value.GetOr(""))| >= TOKEN_SIZE
    ensures NodeSize(n, 0, TOKEN_SIZE) == None
  {
    hide Quoted;
  }

  lemma CloseTagAsValue(cfg: Config, v: string, x: string, size: Size, l: Level)
    requires NulFree(v) && (forall i :: 0 <= i < |v| ==> v[i] != '\'' && v[i] != '&') && |v| < size
             && l.state == AtString
    ensures Reading(cfg, Ahead("'" + (v + ("'" + x)), Normal, size), [], l)
         == Reading(cfg, Ahead(x, Normal, size), [], WithProp(l, Prop(l.attr, Some(v))))
  {
    hide Reading, Lex, Act1, Names;
    LexString(v, x, size);
    var c := Call(TString, v, Ahead(x, Normal, size));
    TokenOfNulFree(c);
    ValueRead(cfg, l, Token(TString, v), Names([]));
    DecodeOfPlain(v);
    ReadStay(cfg, Ahead("'" + (v + ("'" + x)), Normal, size), c, [], l, WithProp(l, Prop(l.attr, Some(v))));
  }

  lemma NothingBehind(cfg: Config, size: Size, l: Level)
    requires l.state == AtAttribute
    ensures Reading(cfg, Ahead(">\n", Normal, size), [], l) == Running([l], FRESH)
  {
    hide Run, Tokens;
    assert ">\n" == ">" + "\n" && [] + [l] == [l];
    ParseOpen(cfg, "\n", size, [], l);
    LastLineBreak(size);
    NoTokens(cfg, [l], FRESH);
  }

  lemma OpenIsClosed(cfg: Config, text: string, l: Level, n: Node)
    requires Run(cfg, TokensOf(text), [], FRESH) == Running([l], FRESH)
    requires Link(l, EMPTY).node.child == [n] && n.Element? && Printable(cfg, n)
    ensures XmlRoot.ParseDocument(cfg, text) == XmlRoot.Success([n])
  {
    hide Run, Tokens, Printable, XmlRoot.RootOf;
    XmlRoot.ParseOfMachine(cfg, text);
    assert [l][..0] == [];
    assert Collapse([l], FRESH, 0) == Link(l, EMPTY);
    SingleElement(cfg, n);
  }

  /**
   With a quote in the name of a tag, a value that fills the buffer exactly can
   come back from the close tag: the quote behind the value opens a string, and
   the quote in the name ends it.
   */
  lemma OverflowCanGoUnnoticed(cfg: Config, letters: string, attr: string)
    requires OrdinaryName(letters) && PlainChars(letters) && |letters| == TOKEN_SIZE - 10
    requires PlainName(cfg, letters + "'") && PlainName(cfg, attr) && |attr| < TOKEN_SIZE && !cfg.multiText
    ensures var n := OneProp(letters + "'", attr, TagLike(letters));
            && Printable(cfg, n) && NodeSize(n, 0, TOKEN_SIZE) == None
            && XmlRoot.ParseDocument(cfg, DumpNode(n, 0)) == XmlRoot.Success([n])
  {
    hide Run, Tokens, Quoted, PlainName, DumpNode, Lex, CloseText, OrdinaryName, PlainChars, XmlRoot.ParseDocument;
    var name, v := letters + "'", TagLike(letters);
    var n := OneProp(name, attr, v);
    var l := AtValue(name, attr);
    var l' := WithProp(l, Prop(attr, Some(v)));
    var size: Size := 2 * TOKEN_SIZE;
    TagLikeQuoted(letters);
    TagLikeText(letters);
    OneIsPrintable(cfg, name, attr, v);
    OneDoesNotFit(n);
    ReadUpToValue(cfg, name, attr, v);
    EscapedIsQuotable(v);
    LexString(Quoted(v), Behind(name), TOKEN_SIZE);
    assert Quoted(v)[TOKEN_SIZE..] == "";
    var rest := "'" + (v + ("'" + ">\n"));
    assert "" + ("'" + Behind(name)) == rest;
    ReadSame(cfg, Ahead("'" + (Quoted(v) + ("'" + Behind(name))), Normal, TOKEN_SIZE), Ahead(rest, Normal, size), [],
        l);
    CloseTagAsValue(cfg, v, ">\n", size, l);
    NothingBehind(cfg, size, l');
    LinkedOne(l', n);
    OpenIsClosed(cfg, DumpNode(n, 0), l', n);
  }

  // ----- a token that ends behind its buffer

  lemma StopEnds(tok: string, size: Size)
    requires |tok| + 2 == size
    ensures LexNormal("?>", Ident, tok, false, size) == Ended(Lexed(TTiStop, tok + "?>", "", Data, false))
  {
    assert "?>"[1..] == ">" && ">"[1..] == "";
    assert LexNormal(">", TiStop, tok + "?", false, size) == Ended(Lexed(TTiStop, tok + "?" + ">", "", Data, false));
    assert tok + "?" + ">" == tok + "?>";
  }

  /** An identifier that goes on as far as there is room for its `?>`, but not for the terminator. */
  lemma {:induction false} LettersThenStop(n: nat, tok: string, size: Size)
    requires |tok| + n + 2 == size
    ensures var letters: string := seq(n, _ => 'v');
            LexNormal(letters + "?>", Ident, tok, false, size)
            == Ended(Lexed(TTiStop, tok + letters + "?>", "", Data, false))
    decreases n
  {
    hide LexNormal;
    var letters: string := seq(n, _ => 'v');
    var s := letters + "?>";
    if n == 0 {
      assert letters == "" && s == "?>";
      StopEnds(tok, size);
      assert tok + "?>" == tok + letters + "?>";
    } else {
      var fewer: string := seq(n - 1, _ => 'v');
      assert s[1..] == fewer + "?>" && s[0] == 'v';
      LettersArePlain();
      IdentStepPlain(s, Ident, tok, size);
      LettersThenStop(n - 1, tok + ['v'], size);
      assert tok + ['v'] + fewer + "?>" == tok + letters + "?>";
    }
  }

  /** 65534 letters and `?>`: the terminator is stored behind the 64 KiB. */
  lemma TokenEndsBehindBuffer()
    ensures var letters: string := seq(TOKEN_SIZE - 2, _ => 'v');
            LeavesBuffer(Start(letters + "?>"))
  {
    hide LexNormal, Lex, LeavesBuffer;
    var letters: string := seq(TOKEN_SIZE - 2, _ => 'v');
    var fewer: string := seq(TOKEN_SIZE - 3, _ => 'v');
    var text := letters + "?>";
    assert text[1..] == fewer + "?>" && text[0] == 'v' && "v" + fewer == letters;
    FirstChar(text, Ident, TOKEN_SIZE);
    LettersThenStop(TOKEN_SIZE - 3, "v", TOKEN_SIZE);
    CallOfPass(Start(text), Lexed(TTiStop, text, "", Data, false));
    LeavesBufferIff(Start(text));
  }

  // ----- an error behind the root

  lemma NoData()
    ensures IsBlankData("") && Grown(TOKEN_SIZE, 0) == TOKEN_SIZE
  {
  }

  /** Between two tags there need be no data. */
  lemma ReadNoData(cfg: Config, x: string, below: seq<Level>, l: Level)
    requires l.state == AtIdle && l.node.data == None && !cfg.multiText
    ensures Reading(cfg, Ahead("<" + x, Data, TOKEN_SIZE), below, l)
            == Reading(cfg, Ahead("<" + x, Normal, TOKEN_SIZE), below, l)
  {
    hide Reading;
    NoData();
    assert "" + ("<" + x) == "<" + x;
    ReadData(cfg, "", x, TOKEN_SIZE, below, l);
  }

  lemma ReadCloseTag(cfg: Config, name: string, x: string, l: Level)
    requires PlainName(cfg, name) && |name| < TOKEN_SIZE && x != "" && x[0] == '<' && !cfg.multiText
    requires l == FRESH.(state := AtAttribute, name := name)
    ensures Reading(cfg, Ahead("</" + (name + (">" + x)), Data, TOKEN_SIZE), [l], FRESH)
         == Reading(cfg, Ahead(x, Normal, TOKEN_SIZE), [], Link(l, EMPTY))
  {
    hide Reading, PlainName, Act1, Names, Lex, Fold;
    var m1, m2 := FRESH.(state := AtNodeClose), FRESH.(state := AtTagTerm, closing := name);
    var close := name + (">" + x);
    assert "<" + ("/" + close) == "</" + close;
    EndOfTagEndsIdent('>');
    PlainNameFolds(cfg, name);
    ReadNoData(cfg, "/" + close, [l], FRESH);
    ReadCloseStart(cfg, close, TOKEN_SIZE, [l], FRESH);
    assert [] + [l] == [l];
    InnermostName([], l);
    NameActs(cfg, Names([l]), m1, name);
    ReadName(cfg, name, ">" + x, TOKEN_SIZE, [l], m1, m2);
    ReadCloseEnd(cfg, x, TOKEN_SIZE, [], l, m2);
    assert "<" + x[1..] == x;
    ReadNoData(cfg, x[1..], [], Link(l, EMPTY));
  }

  lemma ReadEmptyElement(cfg: Config, name: string, x: string, l: Level)
    requires PlainName(cfg, name) && |name| < TOKEN_SIZE && x != "" && x[0] == '<' && !cfg.multiText
    requires l == FRESH.(state := AtAttribute, name := name)
    ensures Reading(cfg, Ahead("<" + (name + (">" + ("</" + (name + (">" + x))))), Normal, TOKEN_SIZE), [], FRESH)
         == Reading(cfg, Ahead(x, Normal, TOKEN_SIZE), [], Link(l, EMPTY))
  {
    hide Reading, PlainName, Act1, Names, Lex, Fold;
    var l1 := FRESH.(state := AtNode);
    var close := name + (">" + x);
    TagNameStart(cfg, name, ">" + ("</" + close));
    EndOfTagEndsIdent('>');
    PlainNameFolds(cfg, name);
    NameActs(cfg, Names([]), l1, name);
    ReadTagStart(cfg, name + (">" + ("</" + close)), TOKEN_SIZE, [], FRESH);
    ReadName(cfg, name, ">" + ("</" + close), TOKEN_SIZE, [], l1, l);
    ParseOpen(cfg, "</" + close, TOKEN_SIZE, [], l);
    assert [] + [l] == [l];
    ReadCloseTag(cfg, name, x, l);
  }

  lemma OpenAtEnd(size: Size)
    ensures LexNormal("<", Idle, "", false, size) == Ended(Lexed(TMStart1, "<", "", Normal, false))
  {
    var s := "<";
    assert s[0] == '<' && s[1..] == "";
    FirstChar(s, MStart, size);
  }

  /** A `<` at the end of the text. */
  lemma ReadOpenEnd(cfg: Config, size: Size, l: Level)
    requires l.state == AtIdle
    ensures Reading(cfg, Ahead("<", Normal, size), [], l) == Running([], l.(state := AtNode))
  {
    hide Lex, Tokens, Run, Act1, Names, LexNormal;
    var i, next := Ahead("<", Normal, size), Ahead("", Normal, size);
    OpenAtEnd(size);
    CallOfNormal("<", size, Lexed(TMStart1, "<", "", Normal, false));
    var c := Call(TMStart1, "<", next);
    TokenOfNulFree(c);
    StartActs(cfg, Names([]), l);
    ReadStay(cfg, i, c, [], l, l.(state := AtNode));
    EndOfFileIsStable(next);
    TokensStep(next);
    NoTokens(cfg, [], l.(state := AtNode));
  }

  lemma BareIsPrintable(cfg: Config, name: string)
    requires PlainName(cfg, name)
    ensures Printable(cfg, Element(name, None, [], []))
  {
    hide PlainName;
  }

  lemma OpenTagFails(l: Level)
    requires l.state == AtNode
    ensures AtEndOfFile(Running([], l)) == Finished(false, l.node)
  {
  }

  /** `<name></name><`: the parser returns -1, and the element it has read is the tree. */
  lemma ErrorBehindRoot(cfg: Config, name: string)
    requires PlainName(cfg, name) && |name| < TOKEN_SIZE && !cfg.multiText
    ensures var text := "<" + (name + (">" + ("</" + (name + (">" + "<")))));
            && GetNode(cfg, TokensOf(text) + Eofs(MAX_RECURSION), [""], FRESH).Done?
            && GetNode(cfg, TokensOf(text) + Eofs(MAX_RECURSION), [""], FRESH).code == -1
            && XmlRoot.ParseDocument(cfg, text) == XmlRoot.Success([Element(name, None, [], [])])
  {
    hide Run, Tokens, PlainName, Lex, GetNode, Eofs, Skips, AtEndOfFile;
    var text := "<" + (name + (">" + ("</" + (name + (">" + "<")))));
    var n := Element(name, None, [], []);
    var l := FRESH.(state := AtAttribute, name := name);
    LinkedOne(l, n);
    ReadEmptyElement(cfg, name, "<", l);
    ReadOpenEnd(cfg, TOKEN_SIZE, Link(l, EMPTY));
    BareIsPrintable(cfg, name);
    SingleElement(cfg, n);
    EofsSettle(cfg, TokensOf(text), MAX_RECURSION);
    RecursionIsStackMachine(cfg, TokensOf(text) + Eofs(MAX_RECURSION));
    XmlRoot.ParseOfMachine(cfg, text);
    OpenTagFails(Link(l, EMPTY).(state := AtNode));
  }
}
