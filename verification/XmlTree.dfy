/** XML trees as plparse/xmlparser.h declares them, and the merging of text into them. */
module XmlTree {
  import opened CText

  datatype Prop = Prop(name: string, value: Option<string>)

  /** `Text` is a node whose name is the [CDATA] marker: it has no properties and no children. */
  datatype Node =
    | Element(name: string, data: Option<string>, props: seq<Prop>, child: seq<Node>)
    | Text(text: string)

  function NameOf(node: Node): string {
    if node.Text? then "[CDATA]" else node.name
  }

  function PropsOf(node: Node): seq<Prop> {
    if node.Text? then [] else node.props
  }

  function ChildOf(node: Node): seq<Node> {
    if node.Text? then [] else node.child
  }

  /** The parts of a node that grow while its content is read. */
  datatype Content = Content(data: Option<string>, child: seq<Node>)

  const EMPTY := Content(None, [])

  /** `xml_parser_append_text` (plparse/xmlparser.c:205-240). */
  function AppendText(node: Content, text: string, multiText: bool): Content {
    if text == "" then node
    else if multiText && node.child != [] then
      var last := node.child[|node.child| - 1];
      if last.Text? then node.(child := node.child[..|node.child| - 1] + [Text(last.text + text)])
      else node.(child := node.child + [Text(text)])
    else if node.data.Some? then node.(data := Some(node.data.value + text))
    else
      var trimmed := SkipSpaces(text);
      if trimmed == "" then node else node.(data := Some(trimmed))
  }

  /** No child list starts with a text node or holds two adjacent ones. */
  predicate Separated(child: seq<Node>) {
    && (child != [] ==> child[0].Element?)
    && forall i :: 0 < i < |child| ==> child[i - 1].Element? || child[i].Element?
  }

  predicate Merged(node: Node) {
    node.Element? ==> MergedContent(node.child)
  }

  predicate MergedContent(child: seq<Node>) {
    Separated(child) && forall i :: 0 <= i < |child| ==> Merged(child[i])
  }

  lemma AppendTextKeepsMerged(node: Content, text: string, multiText: bool)
    requires MergedContent(node.child)
    ensures MergedContent(AppendText(node, text, multiText).child)
  {
    hide SkipSpaces;
  }

  lemma AppendElementKeepsMerged(child: seq<Node>, node: Node)
    requires MergedContent(child) && node.Element? && Merged(node)
    ensures MergedContent(child + [node])
  {
  }

  // ----- text comes in order

  lemma {:induction false} SkipSpacesOfConcat(a: string, b: string)
    ensures SkipSpaces(a + b) == if SkipSpaces(a) == "" then SkipSpaces(b) else SkipSpaces(a) + b
  {
    hide IsSpace;
    if a == "" {
      assert a + b == b;
    } else {
      assert (a + b)[1..] == a[1..] + b;
      SkipSpacesOfConcat(a[1..], b);
    }
  }

  /** Two pieces of text are the same as one, in their order. */
  lemma AppendTextOfConcat(node: Content, a: string, b: string, multiText: bool)
    ensures AppendText(AppendText(node, a, multiText), b, multiText) == AppendText(node, a + b, multiText)
  {
    hide SkipSpaces;
    SkipSpacesOfConcat(a, b);
    if a == "" {
      assert a + b == b;
    } else if b == "" {
      assert a + b == a;
    } else if multiText && node.child != [] {
      var n := |node.child| - 1;
      if node.child[n].Text? {
        assert node.child[n].text + (a + b) == node.child[n].text + a + b;
      } else {
        assert node.child + [Text(a)] + [] == node.child + [Text(a)];
      }
    } else if node.data.Some? {
      assert node.data.value + (a + b) == node.data.value + a + b;
    }
  }

  /** The first text of a node loses the white space in front of it, and is no data if nothing else is left. */
  lemma AppendTextToEmpty(text: string, multiText: bool)
    ensures AppendText(EMPTY, text, multiText) == EMPTY <==> AllSpaces(text)
    ensures var node := AppendText(EMPTY, text, multiText);
            node != EMPTY ==>
              && node.child == [] && node.data.Some? && node.data.value != "" && !IsSpace(node.data.value[0])
              && exists k :: 0 <= k <= |text| && AllSpaces(text[..k]) && text[k..] == node.data.value
  {
    hide IsSpace;
    SkippedAreSpaces(text);
    assert text[..|text|] == text;
    if AllSpaces(text) {
      SkipSpacesOfAllSpaces(text);
    } else {
      var k := |text| - |SkipSpaces(text)|;
      assert AllSpaces(text[..k]) && text[k..] == SkipSpaces(text);
    }
  }
}
