/**
 XML documents the way they are written, and what they mean, without lexer
 and parser: tags with quoted or bare attribute values and white space where
 it may stand, elements that close themselves, `<? ?>` nodes, comments, document
 types, CDATA sections and text with references (sections 2 and 3 of XML 1.0).

 Texts are written with a continuation: `ItemText (i, x)` is the text of `i`
 with `x` behind it.
 */
module XmlSyntax {
  import opened CText
  import opened XmlTree
  import opened XmlBuilder
  import opened L = XmlLexer
  import Entities

  // ----- what is written

  datatype Value = Quoted(quote: char, raw: string) | Bare(word: string)

  /** `gap name left = right value` */
  datatype Attr = Attr(gap: string, name: string, left: string, right: string, value: Value)

  /** Comments and document types hold words, white space and quoted strings. */
  datatype Part = Word(text: string) | Space(blanks: string) | Literal(quote: char, raw: string)

  datatype Item =
    | Tag(name: string, attrs: seq<Attr>, tail: string, items: seq<Item>, close: string)
    | Leaf(name: string, attrs: seq<Attr>, tail: string)
    | Question(name: string, attrs: seq<Attr>, tail: string)
    | Chars(raw: string)
    | Section(raw: string)
    | Comment(parts: seq<Part>)
    | Doctype(parts: seq<Part>)
    | Gap(blanks: string)

  function ValueText(v: Value, x: string): string {
    match v
    case Quoted(quote, raw) => [quote] + (raw + ([quote] + x))
    case Bare(word) => word + x
  }

  function AttrText(a: Attr, x: string): string {
    a.gap + (a.name + (a.left + ("=" + (a.right + ValueText(a.value, x)))))
  }

  function AttrsText(attrs: seq<Attr>, x: string): string {
    if attrs == [] then x else AttrText(attrs[0], AttrsText(attrs[1..], x))
  }

  function PartText(part: Part, x: string): string {
    match part
    case Word(text) => text + x
    case Space(blanks) => blanks + x
    case Literal(quote, raw) => [quote] + (raw + ([quote] + x))
  }

  function PartsText(parts: seq<Part>, x: string): string {
    if parts == [] then x else PartText(parts[0], PartsText(parts[1..], x))
  }

  function ItemText(i: Item, x: string): string
    decreases i
  {
    match i
    case Tag(name, attrs, tail, items, close) =>
      "<" + (name + AttrsText(attrs, tail + (">" + ItemsText(items, "</" + (close + (">" + x))))))
    case Leaf(name, attrs, tail) => "<" + (name + AttrsText(attrs, tail + ("/>" + x)))
    case Question(name, attrs, tail) => "<?" + (name + AttrsText(attrs, tail + ("?>" + x)))
    case Chars(raw) => raw + x
    case Section(raw) => "<![CDATA[" + (raw + ("]]>" + x))
    case Comment(parts) => "<!--" + PartsText(parts, "-->" + x)
    case Doctype(parts) => "<!DOCTYPE" + PartsText(parts, ">" + x)
    case Gap(blanks) => blanks + x
  }

  function ItemsText(items: seq<Item>, x: string): string
    decreases items
  {
    if items == [] then x else ItemText(items[0], ItemsText(items[1..], x))
  }

  // ----- what may be written

  predicate IsBlank(c: char) {
    c in " \t\n\r"
  }

  /** White space that fits the token buffer. */
  predicate IsGap(s: string, size: Size) {
    |s| < size && forall i :: 0 <= i < |s| ==> IsBlank(s[i])
  }

  predicate IsWordChar(c: char) {
    c !in "<>\\\" \t\n\r=/?'-\0"
  }

  /** A name that fits; it may have dashes inside. */
  predicate IsName(s: string, size: Size) {
    && 0 < |s| < size && s[0] != '!' && s[|s| - 1] != '-'
    && forall i :: 0 <= i < |s| ==> s[i] == '-' || IsWordChar(s[i])
  }

  predicate IsLiteral(quote: char, raw: string, size: Size) {
    (quote == '\'' || quote == '\"') && quote !in raw && NulFree(raw) && |raw| < size
  }

  predicate IsValue(v: Value, size: Size) {
    match v
    case Quoted(quote, raw) => IsLiteral(quote, raw, size)
    case Bare(word) => IsName(word, size)
  }

  predicate IsAttr(a: Attr, size: Size) {
    && a.gap != "" && IsGap(a.gap, size) && IsGap(a.left, size) && IsGap(a.right, size)
    && IsName(a.name, size) && IsValue(a.value, size)
  }

  predicate AreAttrs(attrs: seq<Attr>, size: Size) {
    forall i :: 0 <= i < |attrs| ==> IsAttr(attrs[i], size)
  }

  /** Words are set apart by white space. */
  predicate AreParts(parts: seq<Part>, size: Size) {
    parts != [] ==>
      && AreParts(parts[1..], size)
      && match parts[0]
         case Word(text) =>
           && 0 < |text| && |text| + 3 < size && (forall i :: 0 <= i < |text| ==> IsWordChar(text[i]))
           && (|parts| > 1 ==> parts[1].Space?)
         case Space(blanks) => blanks != "" && IsGap(blanks, size) && (|parts| > 1 ==> !parts[1].Space?)
         case Literal(quote, raw) => IsLiteral(quote, raw, size)
  }

  /** Where an item stands: in character data, between tags, or right in front of a tag. */
  datatype Place = InData | InMarkup | BeforeTag

  predicate IsTagLike(i: Item) {
    !i.Chars? && !i.Gap?
  }

  /** Something separates the name or the value from the `?>`, which would otherwise be part of it. */
  predicate EndsApart(attrs: seq<Attr>, tail: string) {
    tail != "" || (attrs != [] && attrs[|attrs| - 1].value.Quoted?)
  }

  predicate SameTag(cfg: Config, a: string, b: string) {
    Fold(cfg, a) == Fold(cfg, b)
  }

  predicate IsItem(cfg: Config, i: Item, size: Size)
    decreases i
  {
    match i
    case Tag(name, attrs, tail, items, close) =>
      && IsName(name, size) && AreAttrs(attrs, size) && IsGap(tail, size)
      && IsName(close, size) && SameTag(cfg, name, close)
      && AreItems(cfg, items, InData, size)
    case Leaf(name, attrs, tail) => IsName(name, size) && AreAttrs(attrs, size) && IsGap(tail, size)
    case Question(name, attrs, tail) =>
      IsName(name, size) && AreAttrs(attrs, size) && IsGap(tail, size) && EndsApart(attrs, tail)
    case Chars(raw) => '<' !in raw && NulFree(raw) && |raw| < size
    case Section(raw) => NulFree(raw) && |raw| < size && forall k :: 0 <= k < |raw| ==> !OccursAt(raw, "]]>", k)
    case Comment(parts) => AreParts(parts, size)
    case Doctype(parts) => AreParts(parts, size)
    case Gap(blanks) => IsGap(blanks, size)
  }

  function Behind(i: Item): Place {
    match i
    case Comment(_) => InMarkup
    case Chars(_) | Gap(_) => BeforeTag
    case _ => InData
  }

  /** Text stands in character data and plain white space between tags, each up to the next tag. */
  predicate Fits(i: Item, place: Place) {
    (i.Chars? ==> place == InData) && (i.Gap? ==> place == InMarkup)
  }

  predicate AreItems(cfg: Config, items: seq<Item>, place: Place, size: Size)
    decreases items
  {
    items != [] ==>
      IsItem(cfg, items[0], size) && Fits(items[0], place) && AreItems(cfg, items[1..], Behind(items[0]), size)
  }

  /** How many activations of the parser the item needs. */
  function ItemDepth(i: Item): nat
    decreases i
  {
    if i.Tag? then 1 + ItemsDepth(i.items) else 0
  }

  function ItemsDepth(items: seq<Item>): nat
    decreases items
  {
    if items == [] then 0
    else
      var d, e := ItemDepth(items[0]), ItemsDepth(items[1..]);
      if d > e then d else e
  }

  // ----- what it means

  /** What the items between two tags come to: pieces of text and nodes, in their order. */
  datatype Piece = Words(text: string) | Child(node: Node)

  function ValueOf(v: Value): string {
    Entities.Decode(match v case Quoted(_, raw) => raw case Bare(word) => word)
  }

  function PropOf(cfg: Config, a: Attr): Prop {
    Prop(Fold(cfg, a.name), Some(ValueOf(a.value)))
  }

  function PropsOfAttrs(cfg: Config, attrs: seq<Attr>): (props: seq<Prop>)
    ensures |props| == |attrs|
  {
    seq(|attrs|, i requires 0 <= i < |attrs| => PropOf(cfg, attrs[i]))
  }

  /** All text, or with several text nodes the text in front of the first child. */
  function LeadingText(ps: seq<Piece>, multiText: bool): string {
    if ps == [] then ""
    else
      match ps[0]
      case Words(text) => text + LeadingText(ps[1..], multiText)
      case Child(_) => if multiText then "" else LeadingText(ps[1..], multiText)
  }

  /** Without the white space in front of it. */
  function DataOf(ps: seq<Piece>, multiText: bool): Option<string> {
    var text := SkipSpaces(LeadingText(ps, multiText));
    if text == "" then None else Some(text)
  }

  function Nodes(ps: seq<Piece>): seq<Node> {
    if ps == [] then []
    else
      match ps[0]
      case Words(_) => Nodes(ps[1..])
      case Child(node) => [node] + Nodes(ps[1..])
  }

  function TextNode(text: string): seq<Node> {
    if text == "" then [] else [Text(text)]
  }

  /** The nodes with the text between them; `text` comes before the first piece. */
  function Mixed(ps: seq<Piece>, text: string): seq<Node> {
    if ps == [] then TextNode(text)
    else
      match ps[0]
      case Words(more) => Mixed(ps[1..], text + more)
      case Child(node) => TextNode(text) + [node] + Mixed(ps[1..], "")
  }

  /** The pieces from the first node on. */
  function FromFirstChild(ps: seq<Piece>): seq<Piece> {
    if ps == [] || ps[0].Child? then ps else FromFirstChild(ps[1..])
  }

  function ChildrenOf(ps: seq<Piece>, multiText: bool): seq<Node> {
    if multiText then Mixed(FromFirstChild(ps), "") else Nodes(ps)
  }

  function ContentOf(ps: seq<Piece>, multiText: bool): Content {
    Content(DataOf(ps, multiText), ChildrenOf(ps, multiText))
  }

  function ElementOf(cfg: Config, name: string, attrs: seq<Attr>, ps: seq<Piece>): Node {
    Element(name, DataOf(ps, cfg.multiText), PropsOfAttrs(cfg, attrs), ChildrenOf(ps, cfg.multiText))
  }

  function Meaning(cfg: Config, i: Item): seq<Piece>
    decreases i
  {
    match i
    case Tag(name, attrs, _, items, _) => [Child(ElementOf(cfg, Fold(cfg, name), attrs, Meanings(cfg, items)))]
    case Leaf(name, attrs, _) => [Child(ElementOf(cfg, Fold(cfg, name), attrs, []))]
    case Question(name, attrs, _) => [Child(ElementOf(cfg, "?" + Fold(cfg, name), attrs, []))]
    case Chars(raw) => [Words(Entities.Decode(raw))]
    case Section(raw) => [Words(raw)]
    case Comment(_) | Doctype(_) | Gap(_) => []
  }

  function Meanings(cfg: Config, items: seq<Item>): seq<Piece>
    decreases items
  {
    if items == [] then [] else Meaning(cfg, items[0]) + Meanings(cfg, items[1..])
  }

  // ----- the content that comes piece by piece

  function Add(node: Content, p: Piece, multiText: bool): Content {
    match p
    case Words(text) => AppendText(node, text, multiText)
    case Child(n) => node.(child := node.child + [n])
  }

  function AddAll(node: Content, ps: seq<Piece>, multiText: bool): Content
    decreases |ps|
  {
    if ps == [] then node else AddAll(Add(node, ps[0], multiText), ps[1..], multiText)
  }

  /** What a node that has some content already comes to. */
  function Extended(node: Content, ps: seq<Piece>, multiText: bool): Content {
    if multiText && node.child != [] then
      var last := node.child[|node.child| - 1];
      if last.Text? then node.(child := node.child[..|node.child| - 1] + Mixed(ps, last.text))
      else node.(child := node.child + Mixed(ps, ""))
    else
      Content(if node.data.Some? then Some(node.data.value + LeadingText(ps, multiText)) else DataOf(ps, multiText),
              node.child + ChildrenOf(ps, multiText))
  }

  predicate NoEmptyText(node: Content) {
    forall n <- node.child :: n.Text? ==> n.text != ""
  }

  lemma ExtendedByNothing(node: Content, multiText: bool)
    requires NoEmptyText(node)
    ensures Extended(node, [], multiText) == node
  {
    var n := |node.child|;
    assert node.child + [] == node.child;
    if n > 0 {
      assert node.child == node.child[..n - 1] + [node.child[n - 1]];
    }
    if node.data.Some? {
      assert node.data.value + "" == node.data.value;
    }
  }

  lemma WordsUnfold(text: string, rest: seq<Piece>, before: string, multiText: bool)
    ensures var ps := [Words(text)] + rest;
            && LeadingText(ps, multiText) == text + LeadingText(rest, multiText)
            && ChildrenOf(ps, multiText) == ChildrenOf(rest, multiText)
            && Mixed(ps, before) == Mixed(rest, before + text)
  {
    assert ([Words(text)] + rest)[1..] == rest;
  }

  lemma WordsAmongNodes(node: Content, text: string, rest: seq<Piece>)
    requires NoEmptyText(node) && node.child != []
    ensures Extended(Add(node, Words(text), true), rest, true) == Extended(node, [Words(text)] + rest, true)
  {
    hide Mixed, LeadingText, ChildrenOf;
    var n := |node.child| - 1;
    var last := node.child[n];
    WordsUnfold(text, rest, if last.Text? then last.text else "", true);
    if text == "" {
      assert last.Text? ==> last.text + text == last.text;
      assert "" + text == "";
    } else if last.Text? {
      var child := node.child[..n] + [Text(last.text + text)];
      assert child[..n] == node.child[..n];
    } else {
      assert "" + text == text;
      assert (node.child + [Text(text)])[..n + 1] == node.child;
    }
  }

  lemma WordsInFront(node: Content, text: string, rest: seq<Piece>, multiText: bool)
    requires !multiText || node.child == []
    ensures Extended(Add(node, Words(text), multiText), rest, multiText)
         == Extended(node, [Words(text)] + rest, multiText)
  {
    hide SkipSpaces, LeadingText, ChildrenOf;
    WordsUnfold(text, rest, "", multiText);
    SkipSpacesOfConcat(text, LeadingText(rest, multiText));
    assert |SkipSpaces("")| == 0;
    if text == "" {
      assert text + LeadingText(rest, multiText) == LeadingText(rest, multiText);
    }
    if node.data.Some? {
      assert node.data.value + (text + LeadingText(rest, multiText))
          == node.data.value + text + LeadingText(rest, multiText);
    }
  }

  lemma WordsExtend(node: Content, text: string, rest: seq<Piece>, multiText: bool)
    requires NoEmptyText(node)
    ensures NoEmptyText(Add(node, Words(text), multiText))
    ensures Extended(Add(node, Words(text), multiText), rest, multiText)
         == Extended(node, [Words(text)] + rest, multiText)
  {
    hide Extended, SkipSpaces;
    if multiText && node.child != [] {
      WordsAmongNodes(node, text, rest);
    } else {
      WordsInFront(node, text, rest, multiText);
    }
  }

  lemma ChildUnfolds(n: Node, rest: seq<Piece>, before: string, multiText: bool)
    ensures var ps := [Child(n)] + rest;
            && LeadingText(ps, multiText) == (if multiText then "" else LeadingText(rest, multiText))
            && ChildrenOf(ps, multiText) == [n] + (if multiText then Mixed(rest, "") else ChildrenOf(rest, multiText))
            && Mixed(ps, before) == TextNode(before) + [n] + Mixed(rest, "")
  {
    var ps := [Child(n)] + rest;
    assert ps[1..] == rest;
    assert FromFirstChild(ps) == ps;
    assert TextNode("") + [n] == [n];
  }

  lemma NoLeadingText(node: Content, n: Node, rest: seq<Piece>)
    requires node.child == []
    ensures var ps := [Child(n)] + rest;
            Extended(node, ps, true) == Content(node.data, ChildrenOf(ps, true))
  {
    hide Mixed, LeadingText, ChildrenOf;
    ChildUnfolds(n, rest, "", true);
    assert [] + ChildrenOf([Child(n)] + rest, true) == ChildrenOf([Child(n)] + rest, true);
    if node.data.Some? {
      assert node.data.value + "" == node.data.value;
    }
  }

  lemma BehindFirstChild(node: Content, n: Node, rest: seq<Piece>)
    requires node.child == [n] && n.Element?
    ensures Extended(node, rest, true) == Content(node.data, [n] + Mixed(rest, ""))
  {
    hide Mixed;
  }

  lemma ChildComesFirst(node: Content, n: Node, rest: seq<Piece>)
    requires node.child == [] && n.Element?
    ensures Extended(Add(node, Child(n), true), rest, true) == Extended(node, [Child(n)] + rest, true)
  {
    hide Mixed, LeadingText, ChildrenOf, Extended;
    assert [] + [n] == [n];
    ChildUnfolds(n, rest, "", true);
    NoLeadingText(node, n, rest);
    BehindFirstChild(Add(node, Child(n), true), n, rest);
  }

  lemma ChildBehindText(node: Content, n: Node, rest: seq<Piece>)
    requires NoEmptyText(node) && node.child != [] && node.child[|node.child| - 1].Text? && n.Element?
    ensures Extended(Add(node, Child(n), true), rest, true) == Extended(node, [Child(n)] + rest, true)
  {
    hide Mixed, LeadingText, ChildrenOf, SkipSpaces;
    var k := |node.child| - 1;
    var (text, more) := (node.child[k], Mixed(rest, ""));
    ChildUnfolds(n, rest, text.text, true);
    assert TextNode(text.text) == [text];
    assert node.child == node.child[..k] + [text];
    assert node.child[..k] + ([text] + [n] + more) == node.child + [n] + more;
  }

  lemma ChildBehindNode(node: Content, n: Node, rest: seq<Piece>)
    requires node.child != [] && node.child[|node.child| - 1].Element? && n.Element?
    ensures Extended(Add(node, Child(n), true), rest, true) == Extended(node, [Child(n)] + rest, true)
  {
    hide Mixed, LeadingText, ChildrenOf, SkipSpaces;
    ChildUnfolds(n, rest, "", true);
    assert TextNode("") + [n] == [n];
    assert node.child + ([n] + Mixed(rest, "")) == node.child + [n] + Mixed(rest, "");
  }

  lemma ChildExtends(node: Content, n: Node, rest: seq<Piece>, multiText: bool)
    requires NoEmptyText(node) && n.Element?
    ensures NoEmptyText(Add(node, Child(n), multiText))
    ensures Extended(Add(node, Child(n), multiText), rest, multiText) == Extended(node, [Child(n)] + rest, multiText)
  {
    hide SkipSpaces, LeadingText, ChildrenOf, Mixed;
    if multiText && node.child == [] {
      ChildComesFirst(node, n, rest);
    } else if multiText && node.child[|node.child| - 1].Text? {
      ChildBehindText(node, n, rest);
    } else if multiText {
      ChildBehindNode(node, n, rest);
    } else {
      ChildUnfolds(n, rest, "", multiText);
      assert node.child + ([n] + ChildrenOf(rest, multiText)) == node.child + [n] + ChildrenOf(rest, multiText);
    }
  }

  predicate OnlyElements(ps: seq<Piece>) {
    forall p <- ps :: p.Child? ==> p.node.Element?
  }

  lemma {:induction false} AddAllIsExtended(node: Content, ps: seq<Piece>, multiText: bool)
    requires NoEmptyText(node) && OnlyElements(ps)
    ensures AddAll(node, ps, multiText) == Extended(node, ps, multiText)
    decreases |ps|
  {
    hide Extended, Add, NoEmptyText;
    if ps == [] {
      ExtendedByNothing(node, multiText);
    } else {
      assert ps == [ps[0]] + ps[1..];
      match ps[0] {
        case Words(text) => WordsExtend(node, text, ps[1..], multiText);
        case Child(n) => ChildExtends(node, n, ps[1..], multiText);
      }
      AddAllIsExtended(Add(node, ps[0], multiText), ps[1..], multiText);
    }
  }

  /** Text and nodes that come one after the other end up where they belong. */
  lemma AddAllIsContent(ps: seq<Piece>, multiText: bool)
    requires OnlyElements(ps)
    ensures AddAll(EMPTY, ps, multiText) == ContentOf(ps, multiText)
  {
    hide AddAll, DataOf, ChildrenOf;
    AddAllIsExtended(EMPTY, ps, multiText);
    assert [] + ChildrenOf(ps, multiText) == ChildrenOf(ps, multiText);
  }
}
