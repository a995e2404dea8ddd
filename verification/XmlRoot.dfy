/**
 The end of tree building (plparse/xmlparser.c:703-749): text nodes are
 deleted from the top-level chain of siblings and the document's root is
 moved to the head of that chain, both by relinking `next` pointers.
 */
module XmlRoot {
  import opened CText
  import opened XmlTree
  import opened L = XmlLexer
  import opened XmlBuilder
  import opened XmlMachine
  import opened XmlParser

  // ----- merged text

  lemma EmptyIsMerged(l: Level)
    ensures Merged(Tagged(l, EMPTY))
  {
  }

  lemma AttributeKeepsMerged(cfg: Config, l: Level, t: Token)
    requires MergedContent(l.node.child)
    ensures var act := AttributeAct(cfg, l, t); !act.Fail? ==> MergedContent(act.level.node.child)
    ensures var act := QAttributeAct(cfg, l, t); !act.Fail? ==> MergedContent(act.level.node.child)
  {
    hide Fold, MergedContent;
    AppendElementKeepsMerged(l.node.child, Tagged(l, EMPTY)) by {
      EmptyIsMerged(l);
    }
  }

  lemma ActKeepsMerged(cfg: Config, names: seq<string>, l: Level, t: Token)
    requires MergedContent(l.node.child)
    ensures var act := Act1(cfg, names, l, t); !act.Fail? ==> MergedContent(act.level.node.child)
  {
    hide Fold, MergedContent, Entities.Decode, Nearest, XmlTree.AppendText, AttributeAct, QAttributeAct;
    AppendTextKeepsMerged(l.node, Entities.Decode(t.text), cfg.multiText);
    AppendTextKeepsMerged(l.node, t.text, cfg.multiText);
    AttributeKeepsMerged(cfg, l, t);
    AttributeKeepsMerged(cfg, l.(state := AtAttribute), t);
    AttributeKeepsMerged(cfg, l.(state := AtQAttribute), t);
    AttributeKeepsMerged(cfg, l.(state := AtAttribute, props := l.props + [Prop(l.attr, None)]), t);
    AttributeKeepsMerged(cfg, l.(state := AtQAttribute, props := l.props + [Prop(l.attr, None)]), t);
  }

  lemma FreshIsMerged()
    ensures MergedContent(FRESH.node.child)
  {
  }

  /** Whatever is parsed, no list of children starts with a text node or holds two adjacent ones. */
  lemma {:induction false} TextIsMerged(cfg: Config, ts: seq<Token>, names: seq<string>, l: Level)
    requires names != [] && MergedContent(l.node.child)
    ensures var r := GetNode(cfg, ts, names, l); r.Done? ==> MergedContent(r.node.child)
    decreases |ts|
  {
    hide Act1, MergedContent, CloseIndex, CloseCode;
    if |names| <= MAX_RECURSION && ts != [] && ts[0].kind != TError {
      ActKeepsMerged(cfg, names, l, ts[0]);
      match Act1(cfg, names, l, ts[0])
      case Fail =>
      case Return(l') =>
      case End(l') =>
      case Stay(l') => TextIsMerged(cfg, ts[1..], names, l');
      case Open(l') =>
        var r := GetNode(cfg, ts[1..], names + [l'.name], FRESH);
        FreshIsMerged();
        TextIsMerged(cfg, ts[1..], names + [l'.name], FRESH);
        if r.Done? {
          AppendElementKeepsMerged(l'.node.child, Tagged(l', r.node)) by {
            assert Merged(Tagged(l', r.node));
          }
          if r.code == 0 {
            TextIsMerged(cfg, r.rest, names, Link(l', r.node));
          }
        }
    }
  }

  // ----- the chain of siblings

  class ChainNode {
    const node: Node
    var next: ChainNode?

    constructor (node: Node, next: ChainNode?)
      ensures this.node == node && this.next == next
    {
      this.node, this.next := node, next;
    }
  }

  ghost function At(nodes: seq<ChainNode>, i: nat): ChainNode? {
    if i < |nodes| then nodes[i] else null
  }

  ghost predicate Distinct(nodes: seq<ChainNode>) {
    forall i, j :: 0 <= i < j < |nodes| ==> nodes[i] != nodes[j]
  }

  /** `nodes` are the nodes reached from `head`, in order. */
  ghost predicate Chain(head: ChainNode?, nodes: seq<ChainNode>)
    reads nodes
  {
    && head == At(nodes, 0)
    && (forall i :: 0 <= i < |nodes| ==> nodes[i].next == At(nodes, i + 1))
    && Distinct(nodes)
  }

  ghost function Values(nodes: seq<ChainNode>): seq<Node> {
    seq(|nodes|, i requires 0 <= i < |nodes| => nodes[i].node)
  }

  function Elements(child: seq<Node>): (kept: seq<Node>)
    ensures forall n :: n in kept ==> n.Element?
  {
    if child == [] then []
    else Elements(child[..|child| - 1]) + if child[|child| - 1].Text? then [] else [child[|child| - 1]]
  }

  /** The first node and the elements after it: what the deletion loop keeps linked. */
  ghost function Linked(nodes: seq<ChainNode>): (kept: seq<ChainNode>)
    ensures |kept| <= |nodes| && (nodes != [] ==> kept != [] && kept[0] == nodes[0])
    ensures forall n :: n in kept ==> n in nodes
    ensures Distinct(nodes) ==> Distinct(kept)
  {
    if |nodes| <= 1 then nodes
    else
      var last := nodes[|nodes| - 1];
      assert Distinct(nodes) ==> last !in nodes[..|nodes| - 1];
      Linked(nodes[..|nodes| - 1]) + if last.node.Text? then [] else [last]
  }

  lemma {:induction false} LinkedIsElements(nodes: seq<ChainNode>)
    requires nodes != [] ==> nodes[0].node.Element?
    ensures Values(Linked(nodes)) == Elements(Values(nodes))
  {
    if |nodes| == 1 {
      assert Values(nodes) == [nodes[0].node];
      assert Values(nodes)[..0] == [];
    } else if |nodes| > 1 {
      LinkedIsElements(nodes[..|nodes| - 1]);
      assert Values(nodes)[..|nodes| - 1] == Values(nodes[..|nodes| - 1]);
    }
  }

  /** What follows `kept[j]` in a chain that goes on with `rest`. */
  ghost function After(kept: seq<ChainNode>, j: nat, rest: ChainNode?): ChainNode? {
    if j + 1 < |kept| then kept[j + 1] else rest
  }

  /** A partly relinked chain: `kept` in order, and then the nodes from `i` on. */
  ghost predicate PartChain(kept: seq<ChainNode>, nodes: seq<ChainNode>, i: nat)
    reads nodes, kept
    requires i <= |nodes|
  {
    && (forall j :: 0 <= j < |kept| ==> kept[j].next == After(kept, j, At(nodes, i)))
    && (forall j :: i <= j < |nodes| ==> nodes[j].next == At(nodes, j + 1))
  }

  lemma PartChainStarts(head: ChainNode?, nodes: seq<ChainNode>)
    requires Chain(head, nodes)
    ensures PartChain(Linked(nodes[..0]), nodes, 0)
  {
  }

  lemma PartChainEnds(head: ChainNode?, kept: seq<ChainNode>, nodes: seq<ChainNode>)
    requires PartChain(kept, nodes, |nodes|) && Distinct(kept) && head == At(kept, 0)
    ensures Chain(head, kept)
  {
  }

  lemma PartChainNext(kept: seq<ChainNode>, nodes: seq<ChainNode>, i: nat)
    requires i < |nodes| && PartChain(kept, nodes, i)
    ensures nodes[i].next == At(nodes, i + 1)
  {
  }

  lemma PartChainGrows(kept: seq<ChainNode>, nodes: seq<ChainNode>, i: nat)
    requires i < |nodes| && PartChain(kept, nodes, i)
    ensures PartChain(kept + [nodes[i]], nodes, i + 1)
  {
  }

  /** Takes the text node at `i` out of the chain; `qNode` is the last node kept. */
  method Unlink(qNode: ChainNode, priNode: ChainNode, ghost kept: seq<ChainNode>, ghost nodes: seq<ChainNode>,
          ghost i: nat)
    requires i < |nodes| && kept != [] && Distinct(kept) && PartChain(kept, nodes, i)
    requires qNode == kept[|kept| - 1] && priNode == nodes[i]
    requires forall j :: i <= j < |nodes| ==> nodes[j] !in kept
    modifies qNode
    ensures PartChain(kept, nodes, i + 1) && priNode.next == At(nodes, i + 1)
  {
    qNode.next := priNode.next;
  }

  lemma LinkedEnds(nodes: seq<ChainNode>)
    ensures At(Linked(nodes), 0) == At(nodes, 0) && (nodes == [] <==> Linked(nodes) == [])
    ensures Distinct(nodes) ==> Distinct(Linked(nodes))
  {
  }

  lemma LinkedStep(nodes: seq<ChainNode>, i: nat)
    requires i < |nodes| && Distinct(nodes)
    ensures if nodes[i].node.Text? && i > 0 then Linked(nodes[..i + 1]) == Linked(nodes[..i])
            else Linked(nodes[..i + 1]) == Linked(nodes[..i]) + [nodes[i]]
    ensures Distinct(Linked(nodes[..i])) && (i == 0 ==> Linked(nodes[..i]) == [])
    ensures forall j :: i <= j < |nodes| ==> nodes[j] !in Linked(nodes[..i])
  {
    assert nodes[..i + 1][..i] == nodes[..i];
  }

  /**
   The deletion of text nodes.  The head is never re-pointed: a text node
   in front would stay linked although it has been freed.
   */
  method DeleteText(head: ChainNode?, ghost nodes: seq<ChainNode>)
    requires Chain(head, nodes)
    modifies nodes
    ensures Chain(head, Linked(nodes))
  {
    hide Linked, PartChain;
    LinkedEnds(nodes[..0]);
    assert PartChain(Linked(nodes[..0]), nodes, 0) by { PartChainStarts(head, nodes); }
    var priNode, qNode: ChainNode? := head, null;
    ghost var i := 0;
    ghost var kept := Linked(nodes[..0]);
    while priNode != null
      invariant 0 <= i <= |nodes| && priNode == At(nodes, i)
      invariant kept == Linked(nodes[..i]) && PartChain(kept, nodes, i)
      invariant (qNode == null <==> i == 0) && (i > 0 ==> kept != [] && qNode == kept[|kept| - 1] && qNode in nodes)
      decreases |nodes| - i
    {
      LinkedStep(nodes, i);
      PartChainNext(kept, nodes, i);
      if priNode.node.Text? && qNode != null {
        Unlink(qNode, priNode, kept, nodes, i);
      } else {
        qNode := priNode;
        PartChainGrows(kept, nodes, i);
        kept := kept + [nodes[i]];
      }
      priNode := priNode.next;
      i := i + 1;
    }
    assert nodes[..i] == nodes;
    LinkedEnds(nodes);
    PartChainEnds(head, kept, nodes);
  }

  // ----- the root

  /** A node like `<?xml ...?>`. */
  predicate IsQuestion(node: Node) {
    node.Element? && node.name != "" && node.name[0] == '?'
  }

  /** Some question nodes and then one other node. */
  predicate SingleRoot(child: seq<Node>) {
    && child != [] && !IsQuestion(child[|child| - 1])
    && forall i :: 0 <= i < |child| - 1 ==> IsQuestion(child[i])
  }

  /** The last of the siblings in front of the others. */
  function Rotated<T>(s: seq<T>): (r: seq<T>)
    ensures |r| == |s|
  {
    if s == [] then [] else [s[|s| - 1]] + s[..|s| - 1]
  }

  /** Moves the tail of the chain to its head. */
  method MoveTail(head: ChainNode?, qNode: ChainNode?, priNode: ChainNode, ghost nodes: seq<ChainNode>)
    requires Chain(head, nodes) && nodes != [] && priNode == nodes[|nodes| - 1]
    requires qNode == if |nodes| == 1 then null else nodes[|nodes| - 2]
    modifies nodes
    ensures Chain(priNode, Rotated(nodes))
  {
    if qNode != null {
      priNode.next := head;
      qNode.next := null;
    }
  }

  /** The search for the first ordinary node, and the move of the tail to the head. */
  method RotateRoot(head: ChainNode?, ghost nodes: seq<ChainNode>) returns (res: int, root: ChainNode?)
    requires Chain(head, nodes)
    modifies nodes
    ensures res == if SingleRoot(Values(nodes)) then 0 else -1
    ensures res == 0 ==> Chain(root, Rotated(nodes))
  {
    hide IsQuestion, Rotated;
    var priNode, qNode: ChainNode? := head, null;
    ghost var i := 0;
    while priNode != null && IsQuestion(priNode.node)
      invariant 0 <= i <= |nodes| && priNode == At(nodes, i)
      invariant qNode == if i == 0 then null else nodes[i - 1]
      invariant forall j :: 0 <= j < i ==> IsQuestion(Values(nodes)[j])
      decreases |nodes| - i
    {
      qNode := priNode;
      priNode := priNode.next;
      i := i + 1;
    }
    if priNode == null || priNode.next != null {
      assert i < |nodes| ==> !IsQuestion(Values(nodes)[i]);
      return -1, null;
    }
    assert i == |nodes| - 1;
    MoveTail(head, qNode, priNode, nodes);
    return 0, priNode;
  }

  /** What becomes of the children of the parser's top-level node. */
  function RootOf(child: seq<Node>): Option<seq<Node>> {
    var kept := Elements(child);
    if SingleRoot(kept) then Some(Rotated(kept)) else None
  }

  /**
   The tree exists exactly when the elements are question nodes followed by
   one other node; it is that node, and the same question nodes in document order.
   */
  lemma RootConservesNodes(child: seq<Node>, tree: seq<Node>)
    ensures RootOf(child) == Some(tree) <==>
            && tree != [] && !IsQuestion(tree[0])
            && (forall i :: 1 <= i < |tree| ==> IsQuestion(tree[i]))
            && Elements(child) == tree[1..] + [tree[0]]
  {
    hide IsQuestion, Elements;
    var kept := Elements(child);
    if RootOf(child) == Some(tree) {
      assert tree == [kept[|kept| - 1]] + kept[..|kept| - 1];
    }
    if tree != [] && kept == tree[1..] + [tree[0]] {
      assert Rotated(kept) == tree;
      assert forall i :: 0 <= i < |kept| - 1 ==> kept[i] == tree[i + 1];
      assert forall i :: 1 <= i < |tree| ==> tree[i] == kept[i - 1];
    }
  }

  /** What has come of a parse: it may still be going on. */
  datatype Outcome = Unended | Failure | Success(tree: seq<Node>)

  /**
   The end of `xml_parser_build_tree_with_options_r`: the parser's own return
   code is overwritten, so only the nodes linked at the top level matter.
   */
  function OutcomeOf(r: Result): Outcome {
    if r.Unfinished? then Unended
    else
      match RootOf(r.node.child)
      case None => Failure
      case Some(tree) => Success(tree)
  }

  /** The outcome for a text, with as many calls at its end as could make a difference. */
  function ParseDocument(cfg: Config, text: string): Outcome {
    OutcomeOf(GetNode(cfg, TokensOf(text) + Eofs(MAX_RECURSION), [""], FRESH))
  }

  function FinalOutcome(f: Final): Outcome {
    if f.Running? then Unended
    else
      match RootOf(f.node.child)
      case None => Failure
      case Some(tree) => Success(tree)
  }

  lemma OutcomeOfMachine(cfg: Config, ts: seq<Token>)
    ensures OutcomeOf(GetNode(cfg, ts, [""], FRESH)) == FinalOutcome(Run(cfg, ts, [], FRESH))
  {
    hide GetNode, Run, RootOf;
    RecursionIsStackMachine(cfg, ts);
  }

  lemma ParseOfMachine(cfg: Config, text: string)
    ensures ParseDocument(cfg, text) == FinalOutcome(AtEndOfFile(Run(cfg, TokensOf(text), [], FRESH)))
  {
    hide GetNode, Run, RootOf, TokensOf, AtEndOfFile, Eofs, FinalOutcome, OutcomeOf;
    OutcomeOfMachine(cfg, TokensOf(text) + Eofs(MAX_RECURSION));
    EofsSettle(cfg, TokensOf(text), MAX_RECURSION);
  }

  /** An outcome stays the same however many more calls there are. */
  lemma OutcomeIsFinal(cfg: Config, ts: seq<Token>, us: seq<Token>)
    requires ts <= us && OutcomeOf(GetNode(cfg, ts, [""], FRESH)) != Unended
    ensures OutcomeOf(GetNode(cfg, us, [""], FRESH)) == OutcomeOf(GetNode(cfg, ts, [""], FRESH))
  {
    hide GetNode, Run, RootOf, OutcomeOf;
    OutcomeOfMachine(cfg, ts);
    OutcomeOfMachine(cfg, us);
    assert us == ts + us[|ts|..];
    RunOfConcat(cfg, ts, us[|ts|..], [], FRESH);
  }

  lemma StreamGrows(ts: seq<Token>, calls: nat, more: nat)
    requires calls <= more
    ensures Stream(ts, calls) <= Stream(ts, more)
  {
  }

  lemma StreamOfError(ts: seq<Token>, calls: nat)
    requires EndInError(ts) && calls > |ts|
    ensures Stream(ts, calls) == ts
  {
  }

  lemma ErrorFinishes(cfg: Config, ts: seq<Token>)
    requires EndInError(ts)
    ensures var f := Run(cfg, ts, [], FRESH); AtEndOfFile(f) == f
  {
    hide Act1, Names, CloseIndex, Collapse;
    var n := |ts| - 1;
    assert ts == ts[..n] + [ts[n]];
    RunOfConcat(cfg, ts[..n], [ts[n]], [], FRESH);
  }

  lemma StreamOfEnd(ts: seq<Token>, calls: nat)
    requires !EndInError(ts) && calls > |ts|
    ensures Stream(ts, calls) == ts + Eofs(calls - |ts|)
  {
  }

  /** `ParseDocument` is what enough calls of the lexer come to. */
  lemma EnoughCalls(cfg: Config, text: string, calls: nat)
    requires calls >= |TokensOf(text)| + MAX_RECURSION
    ensures OutcomeOf(GetNode(cfg, Fetched(Start(text), calls), [""], FRESH)) == ParseDocument(cfg, text)
  {
    hide GetNode, Run, RootOf, Tokens, Fetched, AtEndOfFile, Eofs, OutcomeOf, FinalOutcome, Stream;
    var ts := TokensOf(text);
    FetchedTokens(Start(text), calls);
    OutcomeOfMachine(cfg, Stream(ts, calls));
    ParseOfMachine(cfg, text);
    if EndInError(ts) {
      StreamOfError(ts, calls);
      ErrorFinishes(cfg, ts);
    } else {
      StreamOfEnd(ts, calls);
      EofsSettle(cfg, ts, calls - |ts|);
    }
  }

  lemma NoCallsSuffice(cfg: Config, text: string, calls: nat)
    requires ParseDocument(cfg, text) == Unended
    ensures GetNode(cfg, Fetched(Start(text), calls), [""], FRESH).Unfinished?
  {
    hide GetNode, Run, RootOf, Tokens, Fetched, Eofs, Stream, ParseDocument;
    var more := calls + |TokensOf(text)| + MAX_RECURSION;
    EnoughCalls(cfg, text, more);
    FetchedTokens(Start(text), calls);
    FetchedTokens(Start(text), more);
    StreamGrows(TokensOf(text), calls, more);
    if !GetNode(cfg, Fetched(Start(text), calls), [""], FRESH).Unfinished? {
      OutcomeIsFinal(cfg, Fetched(Start(text), calls), Fetched(Start(text), more));
    }
  }

  lemma UnendedSkips(cfg: Config, text: string)
    ensures ParseDocument(cfg, text) == Unended <==> NeverReturns(cfg, TokensOf(text))
  {
    hide Run, RootOf, TokensOf, Eofs, Skips, NeverReturns, ParseDocument;
    ParseOfMachine(cfg, text);
    NeverReturnsIffSkipping(cfg, TokensOf(text));
  }

  /** A parse without an outcome is one that no number of calls of the lexer makes return. */
  lemma UnendedNeverReturns(cfg: Config, text: string)
    ensures ParseDocument(cfg, text) == Unended
       <==> forall calls: nat :: GetNode(cfg, Fetched(Start(text), calls), [""], FRESH).Unfinished?
    ensures ParseDocument(cfg, text) == Unended <==> NeverReturns(cfg, TokensOf(text))
  {
    hide GetNode, Run, RootOf, TokensOf, Fetched, Eofs, Skips, Stream, NeverReturns, AtEndOfFile;
    var enough := |TokensOf(text)| + MAX_RECURSION;
    EnoughCalls(cfg, text, enough);
    if ParseDocument(cfg, text) == Unended {
      forall calls: nat
        ensures GetNode(cfg, Fetched(Start(text), calls), [""], FRESH).Unfinished?
      {
        NoCallsSuffice(cfg, text, calls);
      }
    }
    UnendedSkips(cfg, text);
  }

  // ----- parses that fail behind the root

  lemma OpenKeepsContent(cfg: Config, names: seq<string>, l: Level, t: Token)
    requires names != []
    ensures var act := Act1(cfg, names, l, t); act.Open? ==> act.level.node == l.node
  {
    hide Nearest, AppendText, Fold;
  }

  lemma OneTokenFails(cfg: Config, t: Token, below: seq<Level>, top: Level)
    requires var f := Run(cfg, [t], below, top); f.Finished? && !f.ok
    ensures Run(cfg, [t], below, top) == Finished(false, Bottom(below, top).node)
  {
    hide Act1, Names, CloseIndex, Collapse, Link;
    assert [t] == [t] + [];
    if t.kind != TError {
      RunStep(cfg, t, [], below, top);
      OpenKeepsContent(cfg, Names(below), top, t);
    }
  }

  lemma {:induction false} FailingToken(cfg: Config, ts: seq<Token>) returns (i: nat)
    requires var f := Run(cfg, ts, [], FRESH); f.Finished? && !f.ok
    ensures i < |ts|
    ensures var f := Run(cfg, ts[..i], [], FRESH);
            && f.Running? && Run(cfg, ts[..i + 1], [], FRESH).Finished?
            && Run(cfg, ts, [], FRESH) == Finished(false, Bottom(f.below, f.top).node)
    decreases |ts|
  {
    hide Run, Bottom;
    NoTokens(cfg, [], FRESH);
    assert ts != [];
    var n := |ts| - 1;
    assert ts == ts[..n] + [ts[n]] && ts[..n + 1] == ts;
    RunOfConcat(cfg, ts[..n], [ts[n]], [], FRESH);
    var before := Run(cfg, ts[..n], [], FRESH);
    if before.Running? {
      i := n;
      OneTokenFails(cfg, ts[n], before.below, before.top);
    } else {
      i := FailingToken(cfg, ts[..n]);
      assert ts[..n][..i] == ts[..i] && ts[..n][..i + 1] == ts[..i + 1];
    }
  }

  /**
   A parse that returns -1 leaves exactly the nodes that were complete at the
   top level in front of the token that it failed at, and counts as a success
   exactly when their elements are some question nodes and then one other.
   */
  lemma {:induction false} FailureKeepsCompleted(cfg: Config, ts: seq<Token>) returns (i: nat)
    requires var r := GetNode(cfg, ts, [""], FRESH); r.Done? && r.code == -1
    ensures i < |ts|
    ensures var f := Run(cfg, ts[..i], [], FRESH);
            && f.Running? && Run(cfg, ts[..i + 1], [], FRESH).Finished?
            && GetNode(cfg, ts, [""], FRESH).node == Bottom(f.below, f.top).node
            && (OutcomeOf(GetNode(cfg, ts, [""], FRESH)).Success?
                <==> SingleRoot(Elements(Bottom(f.below, f.top).node.child)))
  {
    hide GetNode, Run, Elements, SingleRoot, Bottom;
    RecursionIsStackMachine(cfg, ts);
    i := FailingToken(cfg, ts);
  }

  method ToChain(child: seq<Node>) returns (head: ChainNode?, ghost nodes: seq<ChainNode>)
    ensures Chain(head, nodes) && Values(nodes) == child && fresh(nodes)
  {
    head, nodes := null, [];
    var i := |child|;
    while i > 0
      invariant 0 <= i <= |child| && fresh(nodes)
      invariant Chain(head, nodes) && Values(nodes) == child[i..]
    {
      i := i - 1;
      var n := new ChainNode(child[i], head);
      head, nodes := n, [n] + nodes;
    }
  }

  lemma MergedStartsWithElement(r: Result)
    ensures r.Done? && MergedContent(r.node.child) && r.node.child != [] ==> r.node.child[0].Element?
  {
  }

  lemma ParsedTextIsMerged(cfg: Config, ts: seq<Token>)
    ensures var r := GetNode(cfg, ts, [""], FRESH); r.Done? && r.node.child != [] ==> r.node.child[0].Element?
  {
    FreshIsMerged();
    TextIsMerged(cfg, ts, [""], FRESH);
    MergedStartsWithElement(GetNode(cfg, ts, [""], FRESH));
  }

  lemma ValuesKeepPlaces(nodes: seq<ChainNode>)
    ensures |Values(nodes)| == |nodes| && (nodes != [] ==> Values(nodes)[0] == nodes[0].node)
  {
  }

  lemma LinkedMembers(nodes: seq<ChainNode>)
    ensures forall n :: n in Linked(nodes) ==> n in nodes
  {
  }

  lemma ValuesOfRotated(nodes: seq<ChainNode>)
    ensures Values(Rotated(nodes)) == Rotated(Values(nodes))
  {
  }

  /** The whole build, with at most `calls` calls of the lexer. */
  method BuildTree(text: string, cfg: Config, calls: nat) returns (res: Option<int>, root: ChainNode?,
          ghost tree: seq<ChainNode>)
    ensures var outcome := OutcomeOf(GetNode(cfg, Fetched(Start(text), calls), [""], FRESH));
            res == if outcome.Unended? then None else if outcome.Failure? then Some(-1) else Some(0)
    ensures var outcome := OutcomeOf(GetNode(cfg, Fetched(Start(text), calls), [""], FRESH));
            outcome.Success? ==> Chain(root, tree) && Values(tree) == outcome.tree
  {
    hide GetNode, Fetched, Chain, SingleRoot, Elements, Linked, Values, Rotated;
    root, tree := null, [];
    ParsedTextIsMerged(cfg, Fetched(Start(text), calls));
    var tmpNode := new Frame();
    var code := GetNodeOf(text, tmpNode, cfg, calls);
    if code == None {
      return None, root, tree;
    }
    var head;
    head, tree := ToChain(tmpNode.child);
    ghost var nodes := tree;
    ValuesKeepPlaces(nodes);
    LinkedIsElements(nodes);
    LinkedMembers(nodes);
    DeleteText(head, nodes);
    ghost var kept := Linked(nodes);
    forall i | 0 <= i < |kept|
      ensures fresh(kept[i])
    {
      assert kept[i] in nodes;
    }
    var r;
    ValuesOfRotated(kept);
    r, root := RotateRoot(head, kept);
    res, tree := Some(r), Rotated(kept);
  }
}
