/**
 The tree printer (plparse/xmlparser.c:844-882) and its round trip through
 the lexer and the parser.

 Texts are written with a continuation: `NodeText (n, i, r)` is the text of `n`
 with `r` behind it.
 */
module XmlPrinter {
  import opened CText
  import opened XmlTree
  import opened L = XmlLexer
  import opened XmlBuilder
  import Entities

  // ----- the printer

  function Quoted(value: string): string {
    Entities.Escape(value, Entities.SingleQuote)
  }

  /** `name='value'` */
  function DumpProp(p: Prop): string {
    p.name + "='" + Quoted(p.value.GetOr("")) + "'"
  }

  /** The properties of a node, each on a line of its own. */
  function DumpProps(props: seq<Prop>, pad: nat): string {
    if props == [] then ""
    else DumpProp(props[0]) + (if |props| == 1 then "" else "\n" + Blanks(pad)) + DumpProps(props[1..], pad)
  }

  function DumpStart(node: Node, indent: nat): string {
    Blanks(indent) + "<" + NameOf(node) + " " + DumpProps(PropsOf(node), indent + 2 + |NameOf(node)|) + ">\n"
  }

  function DumpEnd(node: Node, indent: nat): string {
    Blanks(indent) + "</" + NameOf(node) + ">\n"
  }

  function DumpNode(node: Node, indent: nat): string
    decreases node
  {
    DumpStart(node, indent)
    + (if node.Text? then "" else DumpNodes(node.child, indent + 2))
    + DumpEnd(node, indent)
  }

  function DumpNodes(nodes: seq<Node>, indent: nat): string
    decreases nodes
  {
    if nodes == [] then "" else DumpNode(nodes[0], indent) + DumpNodes(nodes[1..], indent)
  }

  /** The printer needs a value for every property. */
  predicate Dumpable(node: Node) {
    node.Element? ==>
      && (forall i :: 0 <= i < |node.props| ==> node.props[i].value.Some? && NulFree(node.props[i].value.value))
      && forall i :: 0 <= i < |node.child| ==> Dumpable(node.child[i])
  }

  lemma {:induction false} DumpPropsGrows(props: seq<Prop>, pad: nat, i: nat)
    requires i < |props|
    ensures DumpProps(props[i..], pad) ==
            DumpProp(props[i]) + (if i + 1 == |props| then "" else "\n" + Blanks(pad)) + DumpProps(props[i + 1..], pad)
  {
    hide DumpProp, Blanks;
    assert props[i..][1..] == props[i + 1..];
  }

  lemma {:induction false} DumpNodesGrows(nodes: seq<Node>, indent: nat, i: nat)
    requires i < |nodes|
    ensures DumpNodes(nodes[i..], indent) == DumpNode(nodes[i], indent) + DumpNodes(nodes[i + 1..], indent)
  {
    hide DumpNode;
    assert nodes[i..][1..] == nodes[i + 1..];
  }

  lemma NothingDumped(n: nat)
    ensures DumpProps([], n) == "" && DumpNodes([], n) == ""
  {
  }

  class Printer {
    var out: string

    /** `printf` */
    method Print(s: string)
      modifies this
      ensures out == old(out) + s
    {
      out := out + s;
    }

    /** One property, its value escaped. */
    method PrintProp(p: Prop)
      requires p.value.Some? && NulFree(p.value.value)
      modifies this
      ensures out == old(out) + DumpProp(p)
    {
      var value := Entities.EscapeString(p.value.value, Entities.SingleQuote);
      Print(p.name + "='" + value[..value.Length - 1] + "'");
    }

    /** The loop over the properties. */
    method PrintProps(props: seq<Prop>, pad: nat)
      requires forall i :: 0 <= i < |props| ==> props[i].value.Some? && NulFree(props[i].value.value)
      modifies this
      ensures out == old(out) + DumpProps(props, pad)
    {
      hide DumpProp, Blanks, DumpProps;
      var i := 0;
      ghost var whole := DumpProps(props, pad);
      assert props[0..] == props;
      while i < |props|
        invariant 0 <= i <= |props|
        invariant old(out) + whole == out + DumpProps(props[i..], pad)
      {
        DumpPropsGrows(props, pad, i);
        ghost var before := out;
        ghost var gap := if i + 1 == |props| then "" else "\n" + Blanks(pad);
        PrintProp(props[i]);
        i := i + 1;
        if i < |props| {
          Print("\n" + Blanks(pad));
        }
        assert out == before + DumpProp(props[i - 1]) + gap;
        assert out + DumpProps(props[i..], pad) == before + (DumpProp(props[i - 1]) + gap + DumpProps(props[i..], pad));
      }
      NothingDumped(pad);
      assert props[i..] == [];
    }

    /** The start tag, on lines of its own. */
    method PrintStart(node: Node, indent: nat)
      requires Dumpable(node)
      modifies this
      ensures out == old(out) + DumpStart(node, indent)
    {
      hide Blanks, DumpProps;
      var name := NameOf(node);
      Print(Blanks(indent) + "<" + name + " ");
      PrintProps(PropsOf(node), indent + 2 + |name|);
      Print(">\n");
    }

    /** `xml_parser_dump_node` */
    method PrintNode(node: Node, indent: nat)
      requires Dumpable(node)
      modifies this
      ensures out == old(out) + DumpNode(node, indent)
      decreases node, 1
    {
      hide Blanks, DumpStart, DumpNodes;
      PrintStart(node, indent);
      if node.Element? {
        PrintNodes(node.child, indent + 2);
      }
      Print(Blanks(indent) + "</" + NameOf(node) + ">\n");
    }

    /** The loop over the children. */
    method PrintNodes(nodes: seq<Node>, indent: nat)
      requires forall i :: 0 <= i < |nodes| ==> Dumpable(nodes[i])
      modifies this
      ensures out == old(out) + DumpNodes(nodes, indent)
      decreases nodes, 0
    {
      hide DumpNode, DumpNodes;
      var i := 0;
      ghost var whole := DumpNodes(nodes, indent);
      assert nodes[0..] == nodes;
      while i < |nodes|
        invariant 0 <= i <= |nodes|
        invariant old(out) + whole == out + DumpNodes(nodes[i..], indent)
      {
        DumpNodesGrows(nodes, indent, i);
        PrintNode(nodes[i], indent);
        i := i + 1;
      }
      NothingDumped(indent);
      assert nodes[i..] == [];
    }
  }

  // ----- the layout

  lemma {:induction false} LastPropOnItsOwnLine(front: seq<Prop>, p: Prop, pad: nat)
    requires front != []
    ensures DumpProps(front + [p], pad) == DumpProps(front, pad) + ("\n" + Blanks(pad) + DumpProp(p))
    decreases |front|
  {
    hide DumpProp, Blanks;
    var props := front + [p];
    assert props[1..] == front[1..] + [p] && props[0] == front[0];
    NothingDumped(pad);
    if |front| == 1 {
      assert props[1..] == [p] && [p][1..] == [];
      assert DumpProps([p], pad) == DumpProp(p) + "" + "";
    } else {
      LastPropOnItsOwnLine(front[1..], p, pad);
    }
  }

  /**
   Every property after the first stands on a line of its own, in the column
   of the first, with its value between single quotes.
   */
  lemma PropsAreAligned(node: Node, front: seq<Prop>, p: Prop, indent: nat)
    requires node.Element? && node.props == front + [p] && front != []
    ensures var first := Blanks(indent) + "<" + node.name + " ";
            DumpStart(node, indent) == first + DumpProps(front, |first|) + "\n" + Blanks(|first|)
                                       + p.name + "='" + Quoted(p.value.GetOr("")) + "'>\n"
  {
    hide Quoted, Blanks, DumpProps;
    LastPropOnItsOwnLine(front, p, indent + 2 + |node.name|);
    assert |Blanks(indent)| == indent;
  }

  lemma LeafIsTwoLines(name: string, indent: nat)
    ensures DumpNode(Element(name, None, [], []), indent)
         == Blanks(indent) + "<" + name + " >\n" + (Blanks(indent) + "</" + name + ">\n")
  {
    hide Blanks;
    var start := Blanks(indent) + "<" + name + " ";
    assert DumpStart(Element(name, None, [], []), indent) == start + "" + ">\n";
    assert start + "" + ">\n" == Blanks(indent) + "<" + name + " >\n";
  }

  lemma OneDumped(p: Prop, n: Node, indent: nat)
    ensures forall pad :: DumpProps([p], pad) == DumpProp(p)
    ensures DumpNodes([n], indent + 2) == DumpNode(n, indent + 2)
  {
    hide DumpProp, DumpNode;
    assert [p][1..] == [] && [n][1..] == [];
    forall pad: nat
      ensures DumpProps([p], pad) == DumpProp(p)
    {
      assert DumpProps([p], pad) == DumpProp(p) + "" + DumpProps([], pad);
    }
  }

  /** A node with one property and one child: the child is two columns further on, between the tags of the node. */
  lemma ChildIsIndented(name: string, attr: string, value: string, inner: string, indent: nat)
    ensures var child := Element(inner, None, [], []);
            var node := Element(name, None, [Prop(attr, Some(value))], [child]);
            DumpNode(node, indent) ==
            Blanks(indent) + "<" + name + " " + (attr + "='" + Quoted(value) + "'") + ">\n"
            + (Blanks(indent + 2) + "<" + inner + " >\n" + (Blanks(indent + 2) + "</" + inner + ">\n"))
            + (Blanks(indent) + "</" + name + ">\n")
  {
    hide Quoted, Blanks;
    var child := Element(inner, None, [], []);
    var p := Prop(attr, Some(value));
    NothingDumped(0);
    assert [p][1..] == [] && [child][1..] == [];
    LeafIsTwoLines(inner, indent + 2);
    OneDumped(p, child, indent);
  }

  // ----- printable trees

  predicate PlainChars(s: string) {
    forall i :: 0 <= i < |s| ==> !EndsIdent(s[i]) && s[i] != '?' && s[i] != '\0'
  }

  /** A name the lexer reads back whole: an identifier that does not end in a dash. */
  predicate PlainName(cfg: Config, s: string) {
    && s != "" && s[0] != '\'' && s[0] != '!' && s[|s| - 1] != '-'
    && PlainChars(s) && Fold(cfg, s) == s
  }

  predicate PlainProp(cfg: Config, p: Prop) {
    PlainName(cfg, p.name) && p.value.Some? && NulFree(p.value.value)
  }

  /** The trees whose every part the printer writes out: no text data, plain names, no missing values. */
  predicate Printable(cfg: Config, n: Node) {
    && n.Element? && n.data == None && PlainName(cfg, n.name)
    && (forall i :: 0 <= i < |n.props| ==> PlainProp(cfg, n.props[i]))
    && forall i :: 0 <= i < |n.child| ==> Printable(cfg, n.child[i])
  }

  function Depth(n: Node): nat {
    if n.Text? then 0 else 1 + MaxDepth(n.child)
  }

  function MaxDepth(nodes: seq<Node>): nat {
    if nodes == [] then 0
    else
      var d, e := Depth(nodes[0]), MaxDepth(nodes[1..]);
      if d > e then d else e
  }

  // ----- the same text in front of a continuation

  /** The line break before the next property. */
  function GapText(props: seq<Prop>, pad: nat, r: string): string {
    if props == [] then r else "\n" + (Blanks(pad) + r)
  }

  function PropsText(props: seq<Prop>, pad: nat, r: string): string {
    if props == [] then r
    else
      var after := GapText(props[1..], pad, PropsText(props[1..], pad, r));
      props[0].name + ("='" + (Quoted(props[0].value.GetOr("")) + ("'" + after)))
  }

  function CloseText(name: string, indent: nat, r: string): string {
    "\n" + (Blanks(indent) + ("</" + (name + (">" + r))))
  }

  function NodeText(n: Node, indent: nat, r: string): string
    requires n.Element?
    decreases n
  {
    "<" + (n.name + (" " + PropsText(n.props, indent + 2 + |n.name|,
                               ">" + KidsText(n.child, indent + 2, CloseText(n.name, indent, r)))))
  }

  /** Every child on a line of its own, with its line break in front. */
  function KidsText(nodes: seq<Node>, indent: nat, r: string): string
    decreases nodes
  {
    if nodes == [] then r
    else if nodes[0].Text? then KidsText(nodes[1..], indent, r)
    else "\n" + (Blanks(indent) + NodeText(nodes[0], indent, KidsText(nodes[1..], indent, r)))
  }

  lemma PropTextIsDump(p: Prop, after: string)
    ensures p.name + ("='" + (Quoted(p.value.GetOr("")) + ("'" + after))) == DumpProp(p) + after
  {
    hide Quoted;
  }

  lemma GapTextIsDump(props: seq<Prop>, pad: nat, after: string)
    ensures GapText(props, pad, after) == (if props == [] then "" else "\n" + Blanks(pad)) + after
  {
    hide Blanks;
    assert "" + after == after;
  }

  lemma GluePropsText(props: seq<Prop>, pad: nat, r: string, after: string)
    requires props != []
    requires after == (if props[1..] == [] then "" else "\n" + Blanks(pad)) + (DumpProps(props[1..], pad) + r)
    ensures DumpProp(props[0]) + after == DumpProps(props, pad) + r
  {
    hide DumpProp, Blanks;
  }

  lemma {:induction false} PropsTextIsDump(props: seq<Prop>, pad: nat, r: string)
    ensures PropsText(props, pad, r) == DumpProps(props, pad) + r
  {
    hide Quoted, Blanks, DumpProp, GapText;
    if props == [] {
      assert "" + r == r;
    } else {
      var p, rest := props[0], props[1..];
      PropsTextIsDump(rest, pad, r);
      var text := PropsText(rest, pad, r);
      var after := GapText(rest, pad, text);
      PropTextIsDump(p, after);
      GapTextIsDump(rest, pad, text);
      GluePropsText(props, pad, r, after);
    }
  }

  lemma CloseTextIsDump(n: Node, indent: nat, r: string)
    requires n.Element?
    ensures CloseText(n.name, indent, "\n" + r) == "\n" + (DumpEnd(n, indent) + r)
  {
    hide Blanks;
  }

  lemma StartTextIsDump(n: Node, indent: nat, r: string)
    requires n.Element?
    ensures var props := DumpProps(n.props, indent + 2 + |n.name|);
            Blanks(indent) + ("<" + (n.name + (" " + (props + (">" + ("\n" + r)))))) == DumpStart(n, indent) + r
  {
    hide Blanks, DumpProps;
  }

  lemma {:induction false} NodeTextIsDump(cfg: Config, n: Node, indent: nat, r: string)
    requires Printable(cfg, n)
    ensures Blanks(indent) + NodeText(n, indent, "\n" + r) == DumpNode(n, indent) + r
    decreases n
  {
    hide DumpProps, PropsText, PlainName, DumpNodes, KidsText;
    var pad := indent + 2 + |n.name|;
    var close := CloseText(n.name, indent, "\n" + r);
    var closing := DumpEnd(n, indent);
    assert close == "\n" + (closing + r) by { CloseTextIsDump(n, indent, r); }
    KidsTextIsDump(cfg, n.child, indent + 2, closing + r);
    var kids := KidsText(n.child, indent + 2, close);
    PropsTextIsDump(n.props, pad, ">" + kids);
    var content := DumpNodes(n.child, indent + 2) + (closing + r);
    assert kids == "\n" + content;
    StartTextIsDump(n, indent, content);
  }

  lemma {:induction false} KidsTextIsDump(cfg: Config, nodes: seq<Node>, indent: nat, r: string)
    requires forall i :: 0 <= i < |nodes| ==> Printable(cfg, nodes[i])
    ensures KidsText(nodes, indent, "\n" + r) == "\n" + (DumpNodes(nodes, indent) + r)
    decreases nodes
  {
    hide NodeText, DumpNode, PlainName;
    if nodes != [] {
      var rest := DumpNodes(nodes[1..], indent) + r;
      KidsTextIsDump(cfg, nodes[1..], indent, r);
      NodeTextIsDump(cfg, nodes[0], indent, rest);
      assert DumpNode(nodes[0], indent) + rest == DumpNodes(nodes, indent) + r;
    }
  }
}
