/**
 Trees that come back although a value in them does not fit the token buffer,
 because the name of a tag holds characters that the escaper would not leave:
 the string that begins in the torn value fills the buffer once more in the
 middle of a close tag, and what is left of that tag's name is the value.
 */
module XmlUnnoticed {
  import opened CText
  import opened XmlTree
  import opened L = XmlLexer
  import opened XmlBuilder
  import opened XmlMachine
  import opened XmlPrinter
  import opened XmlRoundTripLexing
  import opened XmlRoundTrip
  import opened XmlMarks
  import opened XmlPrinted
  import opened XmlRoundTripExact
  import opened XmlExamples
  import XmlRoot
  import Entities

  const PLAIN := Config(false, false, false)

  /** The tree comes back, and it should not: a value in it does not fit. */
  ghost predicate GoesUnnoticed(n: Node) {
    && Printable(PLAIN, n) && NodeSize(n, 0, TOKEN_SIZE) == None
    && XmlRoot.ParseDocument(PLAIN, DumpNode(n, 0)) == XmlRoot.Success([n])
  }

  lemma QuotedNameIsPlain(letters: string)
    requires letters != "" && forall i :: 0 <= i < |letters| ==> letters[i] == 'v'
    ensures PlainName(PLAIN, letters + "'")
  {
    hide EndsIdent;
    LettersArePlain();
    QuoteIsLiteral();
    assert (letters + "'")[0] == 'v';
  }

  /** A quote in the name of a tag. */
  lemma QuotesHideAnOverflow() returns (n: Node)
    ensures GoesUnnoticed(n) && '\'' in n.name
  {
    hide XmlRoot.ParseDocument, DumpNode, NodeSize, PlainName, TagLike, EndsIdent, OrdinaryChar;
    var letters: string := seq(TOKEN_SIZE - 10, _ => 'v');
    LettersArePlain();
    QuotedNameIsPlain(letters);
    OverflowCanGoUnnoticed(PLAIN, letters, "b");
    n := OneProp(letters + "'", "b", TagLike(letters));
    assert n.name[|n.name| - 1] == '\'';
  }

  // ----- the rest of a name as the value

  /** An identifier in the place of a value. */
  lemma ReadNameAsValue(cfg: Config, r: string, x: string, size: Size, below: seq<Level>, l: Level)
    requires r != "" && NameRest(r) && |r| < size && x != "" && EndsIdent(x[0]) && l.state == AtString
    ensures Reading(cfg, Ahead(r + x, Normal, size), below, l)
         == Reading(cfg, Ahead(x, Normal, size), below, WithProp(l, Prop(l.attr, Some(Entities.Decode(r)))))
  {
    hide Reading, Lex, Act1, Names, EndsIdent, Entities.Decode;
    LexName(r, x, size);
    var c := Call(TIdent, r, Ahead(x, Normal, size));
    assert NulFree(r);
    TokenOfNulFree(c);
    ValueRead(cfg, l, Token(TIdent, r), Names(below));
    ReadStay(cfg, Ahead(r + x, Normal, size), c, below, l, WithProp(l, Prop(l.attr, Some(Entities.Decode(r)))));
  }

  /** The last open tag, and nothing behind it. */
  lemma NothingBehindTag(cfg: Config, size: Size, below: seq<Level>, l: Level)
    requires l.state == AtAttribute && |below| + 2 <= MAX_RECURSION
    ensures Reading(cfg, Ahead(">\n", Normal, size), below, l) == Running(below + [l], FRESH)
  {
    hide Run, Tokens;
    assert ">\n" == ">" + "\n";
    ParseOpen(cfg, "\n", size, below, l);
    LastLineBreak(size);
    NoTokens(cfg, below + [l], FRESH);
  }

  // ----- ampersands

  /**
   The escaped value is `a`, which fills the buffer, a double quote and `b`; the
   string that this quote opens runs over `b` and on into the close tag, as far
   as `p`, and the rest `r` of the name stands for the whole value.
   */
  ghost predicate Hidden(cfg: Config, p: string, r: string, v: string, a: string, b: string) {
    && PlainName(cfg, p + r) && |p + r| < TOKEN_SIZE && r != "" && NameRest(r) && Entities.Decode(r) == v
    && NulFree(v) && Quoted(v) == a + ("\"" + b) && |a| == TOKEN_SIZE
    && '\"' !in b && |b| + |p| + 5 == 2 * TOKEN_SIZE
  }

  lemma HiddenString(cfg: Config, p: string, r: string, v: string, a: string, b: string)
    requires Hidden(cfg, p, r, v, a, b)
    ensures var c := b + ("'>\n</" + p);
            && |c| == 2 * TOKEN_SIZE && '\"' !in c
            && Quoted(v)[TOKEN_SIZE..] + ("'" + Behind(p + r)) == "\"" + (c + (r + ">\n"))
  {
    hide Entities.Escape, Entities.Decode, Fold;
    assert forall i :: 0 <= i < |p| ==> p[i] == (p + r)[i];
    assert '\"' !in p;
    assert Behind(p + r) == ">\n</" + (p + (r + ">\n"));
    assert Quoted(v)[TOKEN_SIZE..] == "\"" + b;
  }

  /** Such a tree comes back. */
  lemma HiddenOverflowComesBack(cfg: Config, p: string, r: string, v: string, a: string, b: string, attr: string)
    requires Hidden(cfg, p, r, v, a, b) && PlainName(cfg, attr) && |attr| < TOKEN_SIZE && !cfg.multiText
    ensures var n := OneProp(p + r, attr, v);
            && NodeSize(n, 0, TOKEN_SIZE) == None
            && XmlRoot.ParseDocument(cfg, DumpNode(n, 0)) == XmlRoot.Success([n])
  {
    hide Run, Tokens, Quoted, PlainName, DumpNode, Lex, CloseText, NameRest, XmlRoot.ParseDocument, Entities.Decode;
    var n, c := OneProp(p + r, attr, v), b + ("'>\n</" + p);
    var l := AtValue(p + r, attr);
    var l' := WithProp(l, Prop(attr, Some(v)));
    var text, torn := "'" + (Quoted(v) + ("'" + Behind(p + r))), "\"" + (c + (r + ">\n"));
    OneIsPrintable(cfg, p + r, attr, v);
    OneDoesNotFit(n);
    ReadUpToValue(cfg, p + r, attr, v);
    EscapedIsQuotable(v);
    LexString(Quoted(v), Behind(p + r), TOKEN_SIZE);
    HiddenString(cfg, p, r, v, a, b);
    ReadSame(cfg, Ahead(text, Normal, TOKEN_SIZE), Ahead(torn, Normal, 2 * TOKEN_SIZE), [], l);
    LexStringFills(c, '\"', r + ">\n", 2 * TOKEN_SIZE);
    ReadSame(cfg, Ahead(torn, Normal, 2 * TOKEN_SIZE), Ahead(r + ">\n", Normal, 4 * TOKEN_SIZE), [], l);
    EndOfTagEndsIdent('>');
    ReadNameAsValue(cfg, r, ">\n", 4 * TOKEN_SIZE, [], l);
    NothingBehind(cfg, 4 * TOKEN_SIZE, l');
    LinkedOne(l', n);
    OpenIsClosed(cfg, DumpNode(n, 0), l', n);
  }

  // ----- repeated characters

  function Repeat(c: char, n: nat): (s: string)
    ensures |s| == n && forall i :: 0 <= i < n ==> s[i] == c
  {
    seq(n, _ => c)
  }

  lemma RepeatMore(c: char, n: nat)
    ensures Repeat(c, n + 1) == [c] + Repeat(c, n)
  {
  }

  lemma {:induction false} QuotedConcat(a: string, b: string)
    ensures Quoted(a + b) == Quoted(a) + Quoted(b)
  {
    hide Entities.EscapeChar;
    if a == "" {
      assert a + b == b;
    } else {
      assert (a + b)[1..] == a[1..] + b;
      QuotedConcat(a[1..], b);
    }
  }

  lemma {:induction false} QuotedRepeat(c: char, n: nat)
    ensures |Quoted(Repeat(c, n))| == n * |Entities.EscapeChar(c, Entities.SingleQuote)|
    decreases n
  {
    hide Entities.EscapeChar, Repeat;
    if n == 0 {
      Entities.EmptyTexts(Entities.SingleQuote);
    } else {
      RepeatMore(c, n - 1);
      QuotedRepeat(c, n - 1);
      EscapeOfMore(c, Repeat(c, n - 1));
    }
  }

  lemma {:induction false} CountedIfThere(c: char, s: string)
    requires Count(c, s) == 0
    ensures c !in s
  {
    if s != "" {
      CountedIfThere(c, s[1..]);
      assert s == [s[0]] + s[1..];
    }
  }

  // ----- a name with ampersands

  lemma NoReference(rest: string)
    requires rest == "" || rest[0] == '&'
    ensures Entities.Reference(rest) == Entities.Ref("&", 0)
  {
  }

  /** An ampersand in front of another one, or of the end, is no reference. */
  lemma StrayAmpersand(rest: string)
    requires rest == "" || rest[0] == '&'
    ensures Entities.Decode("&" + rest) == "&" + Entities.Decode(rest)
  {
    hide Entities.Decode;
    Entities.DecodeAtAmpersand(rest);
    NoReference(rest);
    assert rest[0..] == rest;
  }

  lemma {:induction false} DecodeAmpersands(n: nat, rest: string)
    requires rest == "" || rest[0] == '&'
    ensures Entities.Decode(Repeat('&', n) + rest) == Repeat('&', n) + Entities.Decode(rest)
    decreases n
  {
    hide Entities.Decode, Repeat;
    if n == 0 {
      assert Repeat('&', 0) + rest == rest && Repeat('&', 0) + Entities.Decode(rest) == Entities.Decode(rest);
    } else {
      var fewer := Repeat('&', n - 1);
      RepeatMore('&', n - 1);
      DecodeAmpersands(n - 1, rest);
      assert Repeat('&', n) + rest == "&" + (fewer + rest);
      StrayAmpersand(fewer + rest);
      assert "&" + (fewer + Entities.Decode(rest)) == Repeat('&', n) + Entities.Decode(rest);
    }
  }

  /** `m` ampersands, a double quote and `n` more. */
  function AmpersandValue(m: nat, n: nat): string {
    "v" + (Repeat('&', m) + ("\"" + Repeat('&', n)))
  }

  /** The same as it can stand in a name: the quote as a reference, the ampersands as they are. */
  function AmpersandName(m: nat, n: nat): string {
    "v" + (Repeat('&', m) + ("&quot;" + Repeat('&', n)))
  }

  lemma AmpersandNameDecodes(m: nat, n: nat)
    ensures Entities.Decode(AmpersandName(m, n)) == AmpersandValue(m, n)
  {
    hide Entities.Decode, Repeat;
    var quoted := "&quot;" + Repeat('&', n);
    assert Repeat('&', n) + "" == Repeat('&', n);
    DecodeAmpersands(n, "");
    Entities.EmptyTexts(Entities.SingleQuote);
    assert "&" + "quot;" == "&quot;";
    Entities.DecodeOfNamed("quot;", '\"', Repeat('&', n));
    assert ['\"'] + Repeat('&', n) == "\"" + Repeat('&', n);
    DecodeAmpersands(m, quoted);
    Entities.DecodeOfLiteral('v', Repeat('&', m) + quoted);
  }

  lemma AmpersandChars()
    ensures forall c :: c in "v&quot;" ==> !EndsIdent(c) && c != '?' && c != '\0' && c != '\''
  {
  }

  lemma AmpersandNameIsPlain(cfg: Config, m: nat, n: nat)
    requires n > 0 && !cfg.caseInsensitive
    ensures PlainName(cfg, "vv" + AmpersandName(m, n)) && NameRest(AmpersandName(m, n)) && NulFree(AmpersandValue(m, n))
    ensures |AmpersandName(m, n)| == m + n + 7 && AmpersandName(m, n)[m + n + 6] == '&'
  {
    hide EndsIdent;
    AmpersandChars();
    var name := "vv" + AmpersandName(m, n);
    assert forall i :: 0 <= i < |name| ==> name[i] in "v&quot;";
    assert name[|name| - 1] == '&';
    assert name[0] == 'v' && AmpersandName(m, n)[0] == 'v';
    assert AmpersandName(m, n) == name[2..];
  }

  lemma QuotedLetters()
    ensures Quoted("\"") == "\"" && Quoted("v") == "v"
    ensures |Entities.EscapeChar('&', Entities.SingleQuote)| == 5
  {
    assert "\""[1..] == "" && "v"[1..] == "";
  }

  lemma NoneRepeated(c: char, d: char, n: nat)
    requires c != d
    ensures Count(c, Repeat(d, n)) == 0
  {
    CountZero(c, Repeat(d, n));
  }

  lemma AmpersandQuoted(m: nat, n: nat)
    ensures var (a, b) := (Quoted("v" + Repeat('&', m)), Quoted(Repeat('&', n)));
            && Quoted(AmpersandValue(m, n)) == a + ("\"" + b)
            && |a| == 1 + 5 * m && |b| == 5 * n && '\"' !in b
  {
    hide Entities.Escape, Repeat;
    var front, back := "v" + Repeat('&', m), Repeat('&', n);
    assert AmpersandValue(m, n) == front + ("\"" + back);
    QuotedConcat(front, "\"" + back);
    QuotedConcat("\"", back);
    QuotedConcat("v", Repeat('&', m));
    QuotedRepeat('&', m);
    QuotedRepeat('&', n);
    QuotedLetters();
    NoneRepeated('\"', '&', n);
    EscapeCounts('\"', back);
    CountedIfThere('\"', Quoted(back));
  }

  /** Such a name and such a value: 39329 characters, and 39322. */
  lemma AmpersandsHideAnOverflow() returns (n: Node)
    ensures GoesUnnoticed(n) && '&' in n.name
  {
    hide XmlRoot.ParseDocument, DumpNode, NodeSize, AmpersandName, AmpersandValue, Quoted, PlainName, Repeat;
    var m, k := 13107, 26213;
    var a, b := Quoted("v" + Repeat('&', m)), Quoted(Repeat('&', k));
    LettersArePlain();
    AmpersandNameDecodes(m, k);
    AmpersandNameIsPlain(PLAIN, m, k);
    AmpersandQuoted(m, k);
    HiddenOverflowComesBack(PLAIN, "vv", AmpersandName(m, k), AmpersandValue(m, k), a, b, "b");
    n := OneProp("vv" + AmpersandName(m, k), "b", AmpersandValue(m, k));
    OneIsPrintable(PLAIN, n.name, "b", AmpersandValue(m, k));
    assert n.name[|n.name| - 1] == '&';
  }

  // ----- a name with control characters

  /** An element whose only content is another one. */
  function Around(name: string, kid: Node): (n: Node)
    ensures n.Element?
  {
    Element(name, None, [], [kid])
  }

  lemma AroundText(name: string, kid: Node, indent: nat, x: string)
    requires kid.Element?
    ensures var inner := NodeText(kid, indent + 2, CloseText(name, indent, x));
            NodeText(Around(name, kid), indent, x)
            == "<" + (name + (" " + PropsText([], indent + 2 + |name|, ">" + ("\n" + (Blanks(indent + 2) + inner)))))
  {
    hide CloseText, Blanks, PropsText;
    assert [kid][1..] == [];
    var close := CloseText(name, indent, x);
    assert KidsText([], indent + 2, close) == close;
  }

  /** Reading goes from the outer start tag to the inner one. */
  lemma ReadAround(cfg: Config, name: string, kid: Node, indent: nat, x: string, below: seq<Level>)
    requires PlainName(cfg, name) && |name| < TOKEN_SIZE && kid.Element? && |below| + 2 <= MAX_RECURSION
    requires !cfg.multiText && Printable(cfg, Around(name, kid)) && indent <= 50
    ensures Reading(cfg, Ahead(NodeText(Around(name, kid), indent, x), Normal, TOKEN_SIZE), below, FRESH)
         == Reading(cfg, Ahead(NodeText(kid, indent + 2, CloseText(name, indent, x)), Normal, TOKEN_SIZE),
              below + [AfterTag(FRESH, Around(name, kid))], FRESH)
  {
    hide Reading, PlainName, NodeText, CloseText, Blanks, PropsText, AfterTag, Printable;
    var n := Around(name, kid);
    var inner := NodeText(kid, indent + 2, CloseText(name, indent, x));
    var kids := "\n" + (Blanks(indent + 2) + inner);
    AroundText(name, kid, indent, x);
    NodeTextStart(kid, indent + 2, CloseText(name, indent, x));
    ParseTag(cfg, n, indent, kids, TOKEN_SIZE, below, FRESH);
    AfterTagKeeps(FRESH, n);
    ParseOpen(cfg, kids, TOKEN_SIZE, below, AfterTag(FRESH, n));
    ReadLineBreak(cfg, indent + 2, inner[1..], TOKEN_SIZE, below + [AfterTag(FRESH, n)], FRESH);
    assert Grown(TOKEN_SIZE, 3 + indent) == TOKEN_SIZE;
  }

  /** Three elements in each other, the innermost with a property. */
  function ThreeDeep(root: string, mid: string, leaf: string, attr: string, v: string): (n: Node)
    ensures n.Element?
  {
    Around(root, Around(mid, OneProp(leaf, attr, v)))
  }

  /** The close tags behind the value, up to the name of the root. */
  function ClosersUpTo(p: string, mid: string, leaf: string): string {
    ">\n    </" + (leaf + (">\n  </" + (mid + (">\n</" + p))))
  }

  lemma ClosersText(p: string, r: string, mid: string, leaf: string)
    ensures ">" + CloseText(leaf, 4, CloseText(mid, 2, CloseText(p + r, 0, "\n")))
            == ClosersUpTo(p, mid, leaf) + (r + ">\n")
    ensures |ClosersUpTo(p, mid, leaf)| == |p| + |mid| + |leaf| + 18
  {
    assert Blanks(0) == "" && Blanks(2) == "  " && Blanks(4) == "    ";
    var t0 := r + ">\n";
    assert CloseText(p + r, 0, "\n") == "\n</" + (p + t0);
    assert CloseText(mid, 2, "\n</" + (p + t0)) == "\n  </" + (mid + (">" + ("\n</" + (p + t0))));
    assert ">" + ("\n</" + (p + t0)) == (">\n</" + p) + t0;
    assert "\n  </" + (mid + ((">\n</" + p) + t0)) == ("\n  </" + (mid + (">\n</" + p))) + t0;
    var t2 := "\n  </" + (mid + (">\n</" + p));
    assert CloseText(leaf, 4, t2 + t0) == "\n    </" + (leaf + (">" + (t2 + t0)));
    assert ">" + t2 == ">\n  </" + (mid + (">\n</" + p));
    assert ">" + ("\n    </" + (leaf + (">" + (t2 + t0)))) == (">\n    </" + (leaf + (">" + t2))) + t0;
  }

  /**
   The escaped value fills the buffer, so that the quote behind it opens a
   string; this runs over two close tags and into that of the root as far as
   `p`, and the rest `r` of the root's name stands for the value.
   */
  ghost predicate HiddenBelow(cfg: Config, p: string, r: string, mid: string, leaf: string) {
    && PlainName(cfg, p + r) && |p + r| < TOKEN_SIZE && r != "" && NameRest(r) && '&' !in r
    && PlainName(cfg, mid) && |mid| < TOKEN_SIZE && PlainName(cfg, leaf) && |leaf| < TOKEN_SIZE
    && '\'' !in p && '\'' !in mid && '\'' !in leaf
    && |Quoted(r)| == TOKEN_SIZE && |p| + |mid| + |leaf| + 18 == 2 * TOKEN_SIZE
  }

  lemma AroundIsPrintable(cfg: Config, name: string, kid: Node)
    requires PlainName(cfg, name) && Printable(cfg, kid)
    ensures Printable(cfg, Around(name, kid))
  {
    hide PlainName;
  }

  lemma ThreeIsPrintable(cfg: Config, root: string, mid: string, leaf: string, attr: string, v: string)
    requires PlainName(cfg, root) && PlainName(cfg, mid) && PlainName(cfg, leaf) && PlainName(cfg, attr) && NulFree(v)
    ensures Printable(cfg, ThreeDeep(root, mid, leaf, attr, v))
    ensures Printable(cfg, Around(mid, OneProp(leaf, attr, v))) && Printable(cfg, OneProp(leaf, attr, v))
  {
    hide PlainName;
    OneIsPrintable(cfg, leaf, attr, v);
    AroundIsPrintable(cfg, mid, OneProp(leaf, attr, v));
    AroundIsPrintable(cfg, root, Around(mid, OneProp(leaf, attr, v)));
  }

  lemma AroundDoesNotFit(name: string, kid: Node, indent: nat)
    requires kid.Element? && NodeSize(kid, indent + 2, TOKEN_SIZE) == None && indent <= 50
    ensures NodeSize(Around(name, kid), indent, TOKEN_SIZE) == None
  {
    assert Grown(TOKEN_SIZE, 3 + indent) == TOKEN_SIZE;
    assert KidsSize([kid], indent + 2, TOKEN_SIZE) == None;
    assert PropsSize([], indent + 2 + |name|, TOKEN_SIZE) == Some(TOKEN_SIZE);
  }

  lemma LeafDoesNotFit(leaf: string, attr: string, v: string, indent: nat)
    requires |Quoted(v)| >= TOKEN_SIZE
    ensures NodeSize(OneProp(leaf, attr, v), indent, TOKEN_SIZE) == None
  {
    hide Quoted;
  }

  lemma RestIsText(r: string)
    requires NameRest(r)
    ensures NulFree(r)
  {
  }

  lemma NoQuoteInClosers(p: string, mid: string, leaf: string)
    requires '\'' !in p && '\'' !in mid && '\'' !in leaf
    ensures '\'' !in ClosersUpTo(p, mid, leaf)
  {
  }

  /** From the value in the innermost tag to the end of the text. */
  lemma ReadHiddenBelow(cfg: Config, p: string, r: string, mid: string, leaf: string, below: seq<Level>, l: Level)
    requires HiddenBelow(cfg, p, r, mid, leaf) && l.state == AtString && |below| + 2 <= MAX_RECURSION
    ensures var x := ">" + CloseText(leaf, 4, CloseText(mid, 2, CloseText(p + r, 0, "\n")));
            Reading(cfg, Ahead("'" + (Quoted(r) + ("'" + x)), Normal, TOKEN_SIZE), below, l) ==
            Running(below + [WithProp(l, Prop(l.attr, Some(r)))], FRESH)
  {
    hide Reading, Quoted, PlainName, NameRest, CloseText, Lex, Entities.Decode, ClosersUpTo;
    var x := ">" + CloseText(leaf, 4, CloseText(mid, 2, CloseText(p + r, 0, "\n")));
    var c, text := ClosersUpTo(p, mid, leaf), "'" + (Quoted(r) + ("'" + x));
    RestIsText(r);
    EscapedIsQuotable(r);
    LexString(Quoted(r), x, TOKEN_SIZE);
    assert Quoted(r)[TOKEN_SIZE..] + ("'" + x) == "'" + x;
    ReadSame(cfg, Ahead(text, Normal, TOKEN_SIZE), Ahead("'" + x, Normal, 2 * TOKEN_SIZE), below, l);
    ClosersText(p, r, mid, leaf);
    NoQuoteInClosers(p, mid, leaf);
    LexStringFills(c, '\'', r + ">\n", 2 * TOKEN_SIZE);
    ReadSame(cfg, Ahead("'" + x, Normal, 2 * TOKEN_SIZE), Ahead(r + ">\n", Normal, 4 * TOKEN_SIZE), below, l);
    EndOfTagEndsIdent('>');
    ReadNameAsValue(cfg, r, ">\n", 4 * TOKEN_SIZE, below, l);
    DecodeOfPlain(r);
    NothingBehindTag(cfg, 4 * TOKEN_SIZE, below, WithProp(l, Prop(l.attr, Some(r))));
  }

  lemma CollapseStep(below: seq<Level>, l: Level, top: Level)
    ensures Collapse(below + [l], top, 0) == Collapse(below, Link(l, top.node), 0)
  {
    hide Link;
    assert (below + [l])[..|below|] == below;
  }

  lemma CollapseThree(x: Level, y: Level, z: Level)
    ensures Collapse([x, y, z], FRESH, 0) == Link(x, Link(y, Link(z, EMPTY).node).node)
  {
    hide Link, Collapse;
    CollapseStep([x, y], z, FRESH);
    CollapseStep([x], y, Link(z, EMPTY));
    CollapseStep([], x, Link(y, Link(z, EMPTY).node));
    assert [x, y] + [z] == [x, y, z] && [x] + [y] == [x, y] && [] + [x] == [x];
    NothingToCollapse(Link(x, Link(y, Link(z, EMPTY).node).node));
  }

  lemma LinkedAround(name: string, kid: Node, inner: Content)
    requires inner == Content(None, [kid])
    ensures Link(AfterTag(FRESH, Around(name, kid)), inner).node == Content(None, [Around(name, kid)])
  {
    assert [] + [Around(name, kid)] == [Around(name, kid)];
  }

  lemma LinkedLeaf(leaf: string, attr: string, v: string, l: Level)
    requires l == WithProp(FRESH.(state := AtString, name := leaf, attr := attr), Prop(attr, Some(v)))
    ensures Link(l, EMPTY).node == Content(None, [OneProp(leaf, attr, v)])
  {
    var p := Prop(attr, Some(v));
    assert [] + [p] == [p] && [] + [OneProp(leaf, attr, v)] == [OneProp(leaf, attr, v)];
  }

  lemma OutcomeOfThree(cfg: Config, root: string, mid: string, leaf: string, attr: string, v: string)
    requires Printable(cfg, ThreeDeep(root, mid, leaf, attr, v))
    requires var n := ThreeDeep(root, mid, leaf, attr, v);
             var l := WithProp(FRESH.(state := AtString, name := leaf, attr := attr), Prop(attr, Some(v)));
             Run(cfg, TokensOf(DumpNode(n, 0)), [], FRESH)
             == Running([AfterTag(FRESH, n), AfterTag(FRESH, Around(mid, OneProp(leaf, attr, v))), l], FRESH)
    ensures var n := ThreeDeep(root, mid, leaf, attr, v);
            XmlRoot.ParseDocument(cfg, DumpNode(n, 0)) == XmlRoot.Success([n])
  {
    hide Run, Tokens, DumpNode, Printable, AfterTag, Link, XmlRoot.RootOf, Collapse;
    var one := OneProp(leaf, attr, v);
    var two := Around(mid, one);
    var n := Around(root, two);
    var l := WithProp(FRESH.(state := AtString, name := leaf, attr := attr), Prop(attr, Some(v)));
    XmlRoot.ParseOfMachine(cfg, DumpNode(n, 0));
    CollapseThree(AfterTag(FRESH, n), AfterTag(FRESH, two), l);
    LinkedLeaf(leaf, attr, v, l);
    LinkedAround(mid, one, Link(l, EMPTY).node);
    LinkedAround(root, two, Link(AfterTag(FRESH, two), Link(l, EMPTY).node).node);
    SingleElement(cfg, n);
  }

  /** Such a tree comes back. */
  lemma HiddenBelowComesBack(cfg: Config, p: string, r: string, mid: string, leaf: string, attr: string)
    requires HiddenBelow(cfg, p, r, mid, leaf) && PlainName(cfg, attr) && |attr| < TOKEN_SIZE && !cfg.multiText
    ensures var n := ThreeDeep(p + r, mid, leaf, attr, r);
            && NodeSize(n, 0, TOKEN_SIZE) == None
            && XmlRoot.ParseDocument(cfg, DumpNode(n, 0)) == XmlRoot.Success([n])
  {
    hide Run, Tokens, Quoted, PlainName, DumpNode, NodeText, CloseText, NameRest, XmlRoot.ParseDocument, Printable;
    hide AfterTag, NodeSize, Link, XmlRoot.RootOf, Collapse;
    var one := OneProp(leaf, attr, r);
    var two := Around(mid, one);
    var n := Around(p + r, two);
    var c0 := CloseText(p + r, 0, "\n");
    var c1 := CloseText(mid, 2, c0);
    var b := [AfterTag(FRESH, n), AfterTag(FRESH, two)];
    var l := FRESH.(state := AtString, name := leaf, attr := attr);
    var l' := WithProp(l, Prop(attr, Some(r)));
    RestIsText(r);
    ThreeIsPrintable(cfg, p + r, mid, leaf, attr, r);
    LeafDoesNotFit(leaf, attr, r, 4);
    AroundDoesNotFit(mid, one, 2);
    AroundDoesNotFit(p + r, two, 0);
    DumpIsNodeText(cfg, n);
    ReadAround(cfg, p + r, two, 0, "\n", []);
    ReadAround(cfg, mid, one, 2, c0, [AfterTag(FRESH, n)]);
    assert [] + [AfterTag(FRESH, n)] == [AfterTag(FRESH, n)] && [AfterTag(FRESH, n)] + [AfterTag(FRESH, two)] == b;
    OnePropTextAt(leaf, attr, r, 4, c1);
    var e := "'" + (Quoted(r) + ("'" + (">" + CloseText(leaf, 4, c1))));
    assert "='" + (Quoted(r) + ("'" + (">" + CloseText(leaf, 4, c1)))) == "=" + e;
    ReadTagUpToValue(cfg, leaf, attr, e, TOKEN_SIZE, b, FRESH);
    ReadHiddenBelow(cfg, p, r, mid, leaf, b, l);
    assert b + [l'] == [AfterTag(FRESH, n), AfterTag(FRESH, two), l'];
    OutcomeOfThree(cfg, p + r, mid, leaf, attr, r);
  }

  /** A character that the escaper turns into a decimal reference, and that a name can hold. */
  predicate IsControl(c: char) {
    c != '\0' && (c < ' ' || c as int == 127) && !EndsIdent(c)
  }

  lemma ControlChars(c: char)
    requires IsControl(c)
    ensures c != '?' && c != '\'' && c != '&' && c != '-'
    ensures 4 <= |Entities.EscapeChar(c, Entities.SingleQuote)| <= 6
    ensures |Entities.EscapeChar('v', Entities.SingleQuote)| == 1 && !EndsIdent('v')
  {
    assert c < ' ' ==> |Entities.Decimal.Itoa(c as int)| <= 2;
  }

  lemma LettersName(cfg: Config, n: nat)
    requires n > 0 && !cfg.caseInsensitive
    ensures PlainName(cfg, Repeat('v', n)) && '\'' !in Repeat('v', n)
  {
    hide EndsIdent;
    LettersArePlain();
  }

  lemma ControlName(cfg: Config, c: char, n: nat, m: nat, k: nat)
    requires IsControl(c) && m > 0 && k > 0 && !cfg.caseInsensitive
    ensures var r := Repeat('v', m) + Repeat(c, k);
            && PlainName(cfg, Repeat('v', n) + r) && NameRest(r) && '&' !in r
            && |Quoted(r)| == m + k * |Entities.EscapeChar(c, Entities.SingleQuote)|
  {
    hide EndsIdent, Quoted, Entities.EscapeChar;
    ControlChars(c);
    var r := Repeat('v', m) + Repeat(c, k);
    var name := Repeat('v', n) + r;
    assert forall i :: 0 <= i < |name| ==> name[i] == 'v' || name[i] == c;
    assert forall i :: 0 <= i < |r| ==> r[i] == 'v' || r[i] == c;
    assert r[0] == 'v' && name[0] == 'v' && r[|r| - 1] == c && name[|name| - 1] == c;
    QuotedConcat(Repeat('v', m), Repeat(c, k));
    QuotedRepeat('v', m);
    QuotedRepeat(c, k);
  }

  /** A root with 10922 control characters at the end of its name, and the end of that name as a value below it. */
  lemma ControlCharactersHideAnOverflow(c: char) returns (n: Node)
    requires IsControl(c)
    ensures GoesUnnoticed(n) && c in n.name
  {
    hide XmlRoot.ParseDocument, DumpNode, NodeSize, Quoted, PlainName, Repeat, NameRest, Entities.EscapeChar, IsControl;
    ControlChars(c);
    var m := TOKEN_SIZE - 10922 * |Entities.EscapeChar(c, Entities.SingleQuote)|;
    var p, r, letters := Repeat('v', 31054), Repeat('v', m) + Repeat(c, 10922), Repeat('v', 50000);
    LettersArePlain();
    LettersName(PLAIN, 31054);
    LettersName(PLAIN, 50000);
    ControlName(PLAIN, c, 31054, m, 10922);
    HiddenBelowComesBack(PLAIN, p, r, letters, letters, "b");
    RestIsText(r);
    ThreeIsPrintable(PLAIN, p + r, letters, letters, "b", r);
    n := ThreeDeep(p + r, letters, letters, "b", r);
    assert n.name[|n.name| - 1] == c;
  }

  lemma NotABlank(c: char)
    requires !EndsIdent(c)
    ensures c != ' '
  {
  }

  /**
   Whatever character a name can hold that is not an ordinary one, there is a
   tree with it in a name that comes back although a value in it does not fit:
   the equivalence for ordinary names does not hold with any of them.
   */
  lemma OnlyOrdinaryNamesAreExact(c: char) returns (n: Node)
    requires PlainChars([c]) && !OrdinaryChar(c)
    ensures GoesUnnoticed(n) && c in n.name
  {
    hide GoesUnnoticed, EndsIdent;
    assert [c][0] == c;
    if c == '\'' {
      n := QuotesHideAnOverflow();
    } else if c == '&' {
      n := AmpersandsHideAnOverflow();
    } else {
      NotABlank(c);
      n := ControlCharactersHideAnOverflow(c);
    }
  }
}
