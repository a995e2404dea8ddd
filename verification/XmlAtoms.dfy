/**
 What a parse has gathered so far, in document order: the names of tags and
 the properties, whether they are still on the stack or in finished nodes.
 Closing a tag moves them and changes nothing.
 */
module XmlAtoms {
  import opened CText
  import opened XmlTree
  import opened L = XmlLexer
  import opened XmlBuilder
  import opened XmlMachine
  import opened XmlMarks
  import Entities

  datatype Atom = Tag(name: string) | Attr(name: string, value: Option<string>)

  function PropAtoms(props: seq<Prop>): (r: seq<Atom>)
    ensures |r| == |props|
  {
    seq(|props|, i requires 0 <= i < |props| => Attr(props[i].name, props[i].value))
  }

  function NodeAtoms(n: Node): seq<Atom> {
    if n.Text? then [] else [Tag(n.name)] + PropAtoms(n.props) + KidsAtoms(n.child)
  }

  function KidsAtoms(nodes: seq<Node>): seq<Atom> {
    if nodes == [] then [] else NodeAtoms(nodes[0]) + KidsAtoms(nodes[1..])
  }

  /** The tag that is being read belongs to what has been gathered. */
  predicate Pending(state: ParserState) {
    state == AtAttribute || state == AtAttributeEquals || state == AtString
  }

  function TagAtoms(l: Level): (r: seq<Atom>)
    ensures Pending(l.state) ==> r != []
  {
    if Pending(l.state) then [Tag(l.name)] + PropAtoms(l.props) else []
  }

  function LevelAtoms(l: Level): seq<Atom> {
    KidsAtoms(l.node.child) + TagAtoms(l)
  }

  function LowerAtoms(below: seq<Level>): seq<Atom> {
    if below == [] then [] else LowerAtoms(below[..|below| - 1]) + LevelAtoms(below[|below| - 1])
  }

  function StackAtoms(below: seq<Level>, top: Level): seq<Atom> {
    LowerAtoms(below) + LevelAtoms(top)
  }

  /** Every level but the top one has opened a tag. */
  predicate Opened(below: seq<Level>) {
    forall i :: 0 <= i < |below| ==> below[i].state == AtAttribute
  }

  lemma {:induction false} KidsConcat(a: seq<Node>, b: seq<Node>)
    ensures KidsAtoms(a + b) == KidsAtoms(a) + KidsAtoms(b)
    decreases |a|
  {
    hide NodeAtoms;
    if a == [] {
      assert a + b == b;
    } else {
      assert (a + b)[0] == a[0] && (a + b)[1..] == a[1..] + b;
      KidsConcat(a[1..], b);
    }
  }

  lemma KidsOfOne(n: Node)
    ensures KidsAtoms([n]) == NodeAtoms(n)
  {
    hide NodeAtoms;
    assert KidsAtoms([n]) == NodeAtoms(n) + KidsAtoms([]);
  }

  lemma LinkAtoms(b: Level, top: Level)
    requires b.state == AtAttribute && !Pending(top.state)
    ensures LevelAtoms(Link(b, top.node)) == LevelAtoms(b) + LevelAtoms(top)
  {
    hide PropAtoms, KidsAtoms;
    var n := Tagged(b, top.node);
    KidsConcat(b.node.child, [n]);
    KidsOfOne(n);
  }

  lemma LinkIsIdle(l: Level, content: Content)
    ensures Link(l, content).state == AtIdle
  {
  }

  /** Closing tags moves what was gathered, and loses nothing. */
  lemma {:induction false} CollapseAtoms(below: seq<Level>, top: Level, keep: nat)
    requires Opened(below) && !Pending(top.state) && keep <= |below|
    ensures StackAtoms(below[..keep], Collapse(below, top, keep)) == StackAtoms(below, top)
    ensures keep < |below| ==> Collapse(below, top, keep).state == AtIdle
    decreases |below|
  {
    hide LevelAtoms, Link;
    if keep == |below| {
      assert below[..keep] == below;
    } else {
      var n := |below| - 1;
      LinkIsIdle(below[n], top.node);
      LinkAtoms(below[n], top);
      CollapseAtoms(below[..n], Link(below[n], top.node), keep);
      assert below[..n][..keep] == below[..keep];
    }
  }

  /** What an error leaves is the front of what was gathered, and less if a tag was open. */
  lemma {:induction false} BottomAtoms(below: seq<Level>, top: Level)
    requires Opened(below)
    ensures var r := KidsAtoms(Bottom(below, top).node.child);
            r <= StackAtoms(below, top) && (below != [] || Pending(top.state) ==> |r| < |StackAtoms(below, top)|)
    decreases |below|
  {
    hide KidsAtoms;
    if below != [] {
      var n := |below| - 1;
      BottomAtoms(below[..n], below[n]);
      assert StackAtoms(below[..n], below[n]) == LowerAtoms(below);
    }
  }

  // ----- what one token adds

  /** The states a parse can be in when its tokens are taken from a printed text. */
  predicate Calm(state: ParserState) {
    state in {AtIdle, AtNode, AtAttribute, AtNodeClose, AtTagTerm, AtAttributeEquals, AtString, AtTagTermIgnore}
  }

  predicate IsPlainToken(kind: Kind) {
    kind in KINDS && kind != TError && kind != TEof
  }

  /** A token that is read adds nothing, a tag by its name, or a property by its value. */
  predicate Adds(cfg: Config, l: Level, t: Token, l': Level) {
    && Calm(l'.state)
    && (if l.state == AtNode then
          t.kind == TIdent && l'.state == AtAttribute && LevelAtoms(l') == LevelAtoms(l) + [Tag(Fold(cfg, t.text))]
        else if l.state == AtString && l' != l then
          && t.kind in {TString, TIdent} && l'.state == AtAttribute
          && LevelAtoms(l') == LevelAtoms(l) + [Attr(l.attr, Some(Entities.Decode(t.text)))]
        else
          && LevelAtoms(l') == LevelAtoms(l)
          && (l'.state == AtNode ==> t.kind == TMStart1)
          && (l'.state == AtString ==> l' == l || t.kind == TEqual))
  }

  /** `>` opens a tag, and adds a property that was left without a value. */
  predicate AddsByOpening(l: Level, l': Level) {
    && l'.state == AtAttribute
    && if l.state == AtAttributeEquals then LevelAtoms(l') == LevelAtoms(l) + [Attr(l.attr, None)]
       else LevelAtoms(l') == LevelAtoms(l)
  }

  ghost predicate ActAdds(cfg: Config, l: Level, t: Token, act: Act) {
    match act
    case Stay(l') => Adds(cfg, l, t, l')
    case Open(l') => AddsByOpening(l, l')
    case Return(l') => l' == l && !Pending(l.state)
    case End(_) => false
    case Fail => true
  }

  lemma PropAtomsGrow(props: seq<Prop>, p: Prop)
    ensures PropAtoms(props + [p]) == PropAtoms(props) + [Attr(p.name, p.value)]
  {
  }

  lemma IdleAdds(cfg: Config, l: Level, t: Token)
    requires l.state == AtIdle && IsPlainToken(t.kind) && !cfg.multiText
    ensures ActAdds(cfg, l, t, IdleAct(cfg, l, t))
  {
    hide KidsAtoms, PropAtoms, Entities.Decode, SkipSpaces, Fold;
  }

  lemma NodeAdds(cfg: Config, l: Level, t: Token)
    requires l.state == AtNode && IsPlainToken(t.kind)
    ensures ActAdds(cfg, l, t, NodeAct(cfg, l, t))
  {
    hide KidsAtoms, Entities.Decode, Fold;
    assert PropAtoms([]) == [];
  }

  lemma AttributeAdds(cfg: Config, l: Level, t: Token)
    requires l.state == AtAttribute && IsPlainToken(t.kind)
    ensures ActAdds(cfg, l, t, AttributeAct(cfg, l, t))
  {
    hide KidsAtoms, PropAtoms, Entities.Decode, Fold;
  }

  lemma EqualsAdds(cfg: Config, l: Level, t: Token)
    requires l.state == AtAttributeEquals && IsPlainToken(t.kind)
    ensures ActAdds(cfg, l, t, EqualsAct(cfg, l, t))
  {
    hide KidsAtoms, PropAtoms, Entities.Decode, Fold;
    PropAtomsGrow(l.props, Prop(l.attr, None));
  }

  lemma StringAdds(cfg: Config, l: Level, t: Token)
    requires l.state == AtString && IsPlainToken(t.kind)
    ensures ActAdds(cfg, l, t, StringAct(l, t))
  {
    hide KidsAtoms, PropAtoms, Entities.Decode, Fold;
    PropAtomsGrow(l.props, Prop(l.attr, Some(Entities.Decode(t.text))));
  }

  lemma CloseAdds(cfg: Config, names: seq<string>, l: Level, t: Token)
    requires l.state == AtNodeClose && IsPlainToken(t.kind)
    ensures ActAdds(cfg, l, t, CloseAct(cfg, names, l, t))
  {
    hide KidsAtoms, PropAtoms, Nearest, Fold;
  }

  lemma SkipAdds(cfg: Config, l: Level, t: Token)
    requires l.state in {AtTagTerm, AtTagTermIgnore} && IsPlainToken(t.kind)
    ensures ActAdds(cfg, l, t, SkipAct(cfg, l, t))
  {
    hide KidsAtoms, PropAtoms;
  }

  lemma TokenAdds(cfg: Config, names: seq<string>, l: Level, t: Token)
    requires names != [] && Calm(l.state) && IsPlainToken(t.kind) && !cfg.multiText
    ensures ActAdds(cfg, l, t, Act1(cfg, names, l, t))
  {
    hide IdleAct, NodeAct, AttributeAct, EqualsAct, StringAct, CloseAct, SkipAct, ActAdds, IsPlainToken;
    match l.state
    case AtIdle => IdleAdds(cfg, l, t);
    case AtNode => NodeAdds(cfg, l, t);
    case AtAttribute => AttributeAdds(cfg, l, t);
    case AtAttributeEquals => EqualsAdds(cfg, l, t);
    case AtString => StringAdds(cfg, l, t);
    case AtNodeClose => CloseAdds(cfg, names, l, t);
    case _ => SkipAdds(cfg, l, t);
  }
}
