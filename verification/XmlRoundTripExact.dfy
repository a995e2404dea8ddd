/**
 The exact condition of the round trip: a tree whose names hold nothing that is
 escaped comes back from its printed text if and only if it is not too deep and
 no name or value in it fills the token buffer it is read into.
 */
module XmlRoundTripExact {
  import opened CText
  import opened XmlTree
  import opened L = XmlLexer
  import opened XmlBuilder
  import opened XmlMachine
  import opened XmlPrinter
  import opened XmlRoundTripLexing
  import opened XmlRoundTrip
  import opened XmlMarks
  import opened XmlAtoms
  import opened XmlOverflow
  import opened XmlPrinted
  import XmlRoot
  import Entities

  // ----- identifiers in front of the next mark of a printed tree

  lemma LineBreakRuns(indent: nat, t: string, m: nat)
    requires m > 0 && ShortRuns(t, m)
    ensures ShortRuns("\n" + (Blanks(indent) + t), m)
  {
    hide ShortRuns;
    var b := "\n" + Blanks(indent);
    assert b + t == "\n" + (Blanks(indent) + t);
    BlankRuns(b, t, m);
  }

  lemma CloseRuns(cfg: Config, name: string, indent: nat, x: string, atoms: seq<Atom>, m: nat)
    requires PlainOrdinary(cfg, name) && |name| < m && ShortRuns(x, m)
    requires Boundary(x, atoms) && x != "" && x[0] == '\n'
    ensures ShortRuns(CloseText(name, indent, x), m)
  {
    hide ShortRuns, Boundary, Marks, PlainOrdinary, Blanks, IsMark;
    var t := ">" + x;
    EndPiece(x, atoms);
    NamePiece(cfg, name, t, atoms);
    SeparatorRuns('>', x, m);
    NameRuns(cfg, name, t, m);
    SeparatorRuns('/', name + t, m);
    assert ['/'] + (name + t) == "/" + (name + t);
    SeparatorRuns('<', "/" + (name + t), m);
    assert ['<'] + ("/" + (name + t)) == "</" + (name + t);
    LineBreakRuns(indent, "</" + (name + t), m);
  }

  lemma TagFirst(cfg: Config, n: Node, indent: nat, x: string)
    requires Ordinary(cfg, n)
    ensures var u := NodeText(n, indent, x); |u| > 1 && n.name != "" && u[0] == '<' && u[1] == n.name[0]
  {
    hide PropsText, KidsText, CloseText, OrdinaryName, Fold;
  }

  lemma NameStart(cfg: Config, n: Node)
    requires Ordinary(cfg, n)
    ensures n.name != "" && n.name[0] != '/' && PlainOrdinary(cfg, n.name)
  {
    hide OrdinaryName;
    assert n.name != "";
    assert !EndsIdent(n.name[0]);
  }

  lemma TagRuns(cfg: Config, n: Node, indent: nat, x: string, m: nat)
    requires Ordinary(cfg, n) && m > 0
    ensures ShortRuns(NodeText(n, indent, x), m)
  {
    hide ShortRuns, PropsText, KidsText, CloseText, PlainName;
    var u := NodeText(n, indent, x);
    var t := u[1..];
    assert u == ['<'] + t && t[0] == n.name[0] by { TagFirst(cfg, n, indent, x); }
    NameStart(cfg, n);
    SeparatorRuns('<', t, m);
  }

  lemma KidsRuns(cfg: Config, nodes: seq<Node>, indent: nat, x: string, m: nat)
    requires (forall i :: 0 <= i < |nodes| ==> Ordinary(cfg, nodes[i])) && m > 0 && ShortRuns(x, m)
    ensures ShortRuns(KidsText(nodes, indent, x), m)
  {
    hide ShortRuns, NodeText, PlainName, OrdinaryName;
    if nodes != [] {
      var rest := KidsText(nodes[1..], indent, x);
      TagRuns(cfg, nodes[0], indent, rest, m);
      LineBreakRuns(indent, NodeText(nodes[0], indent, rest), m);
    }
  }

  lemma ShortRunsMore(t: string, m: nat, n: nat)
    requires ShortRuns(t, m) && m <= n
    ensures ShortRuns(t, n)
  {
    hide Entities.Escape, Entities.Decode, RunAt;
  }

  lemma PropRuns(cfg: Config, p: Prop, t: string, atoms: seq<Atom>, k: nat, m: nat)
    requires PlainProp(cfg, p) && OrdinaryName(p.name) && k + 1 + Marks(t) == |atoms| && m > 0
    requires Boundary(t, atoms) && (t != "" ==> t[0] != '\'') && atoms[k] == Attr(p.name, p.value)
    ensures ShortRuns(p.name + ("='" + (Quoted(p.value.GetOr("")) + ("'" + t))), m)
  {
    hide ShortRuns, Boundary, Marks, Quoted, IsMark, PlainName, OrdinaryName;
    var w := Quoted(p.value.value) + ("'" + t);
    AttrPiece(p.value.value, t, atoms, k);
    assert "='" + w == ['='] + ("'" + w);
    SeparatorRuns('=', "'" + w, m);
    NamePiece(cfg, p.name, "='" + w, atoms);
    NameRuns(cfg, p.name, "='" + w, m);
  }

  /** The text behind a property. */
  lemma GapRuns(cfg: Config, props: seq<Prop>, pad: nat, x: string, atoms: seq<Atom>, p: nat, m: nat)
    requires OrdinaryProps(props) && (forall i :: 0 <= i < |props| ==> PlainProp(cfg, props[i]))
    requires Boundary(x, atoms) && x != "" && x[0] != '\'' && Next(atoms, p, PropAtoms(props), x)
    requires m > 0 && ShortRuns(x, m)
    ensures ShortRuns(GapText(props, pad, PropsText(props, pad, x)), m)
  {
    hide ShortRuns, Boundary, Marks, PlainProp, OrdinaryName, PropAtoms, Quoted, IsMark;
    if props != [] {
      NextAttr(atoms, p, props, x);
      PropsPiece(cfg, props[1..], pad, x, atoms, p + 1);
      var text := PropsText(props[1..], pad, x);
      GapPiece(props[1..], pad, text, atoms);
      PropRuns(cfg, props[0], GapText(props[1..], pad, text), atoms, p, m);
      LineBreakRuns(pad, PropsText(props, pad, x), m);
    }
  }

  // ----- what is left of a value that did not fit

  lemma QuoteIsLiteral()
    ensures IsLiteral('\'') && !EndsIdent('\'')
  {
  }

  lemma PartCount(c: char, w: string, a: nat, b: nat)
    requires a <= b <= |w|
    ensures Count(c, w[a..b]) <= Count(c, w)
  {
    SuffixCounts(c, w[a..], w);
    assert w[a..] == w[a..b] + w[b..];
    CountConcat(c, w[a..b], w[b..]);
  }

  lemma ValuePartLiteral(v: string, i: nat, t: string, a: nat, b: nat)
    requires NulFree(v) && i <= |Quoted(v)| && a <= b <= |Quoted(v)| - i + 1
    ensures var z := ValueRest(v, i, t)[a..b];
            (forall k :: 0 <= k < |z| ==> IsLiteral(z[k])) && Count('\'', z) <= 1
  {
    hide Quoted, IsLiteral;
    QuotedIsLiteral(v);
    EscapedIsQuotable(v);
    QuoteIsLiteral();
    var q := Quoted(v)[i..];
    var w := q + "'";
    assert ValueRest(v, i, t) == w + t;
    assert (w + t)[a..b] == w[a..b];
    CountZero('\'', q);
    CountConcat('\'', q, "'");
    PartCount('\'', w, a, b);
  }

  /** Part of the rest of a value, and perhaps its quote. */
  lemma ValuePart(v: string, i: nat, t: string, a: nat, b: nat)
    requires NulFree(v) && i <= |Quoted(v)| && a <= b <= |Quoted(v)| - i + 1 && Tame(ValueRest(v, i, t))
    requires b < |ValueRest(v, i, t)| && EndsIdent(ValueRest(v, i, t)[b])
    ensures |Entities.Escape(Entities.Decode(ValueRest(v, i, t)[a..b]), Entities.SingleQuote)| <= |Quoted(v)| - i + 6
  {
    hide Entities.Escape, Entities.Decode, Tame, EndsIdent, AmpOk, IsLiteral, Count;
    var u := ValueRest(v, i, t);
    var z := u[a..b];
    SuffixOf(u[a..], u);
    assert u[a..][..b - a] == z && u[a..][b - a] == u[b];
    TakenAmpOk(u[a..], b - a);
    ValuePartLiteral(v, i, t, a, b);
    EscapeDecodeLength(z);
  }

  lemma EndOfTagEndsIdent(c: char)
    requires c in ">\n"
    ensures EndsIdent(c) && c != '\\'
  {
  }

  /** An identifier that begins in the rest of a value ends there, or with its quote. */
  lemma RunEndsValue(v: string, i: nat, t: string, a: int, b: int)
    requires i <= |Quoted(v)| && t != "" && t[0] in ">\n" && RunAt(ValueRest(v, i, t), a, b)
    ensures a <= |Quoted(v)| - i ==> b <= |Quoted(v)| - i + 1
  {
    hide Quoted, Marks, IdentLike, EndsIdent;
    var n := |Quoted(v)| - i;
    if a <= n && b > n + 1 {
      var w := Quoted(v)[i..] + "'";
      assert ValueRest(v, i, t) == w + t;
      EndOfTagEndsIdent(t[0]);
      BehindName(w, t, a, b);
    }
  }

  lemma RunBehindValue(v: string, i: nat, t: string, a: int, b: int)
    requires i <= |Quoted(v)| && RunAt(ValueRest(v, i, t), a, b) && a > |Quoted(v)| - i
    requires Marks(ValueRest(v, i, t)) == Marks(t)
    ensures var (u, n) := (ValueRest(v, i, t), |Quoted(v)| - i + 1);
            u[a..b] == t[a - n..b - n] && u[b] == t[b - n] && RunAt(t, a - n, b - n)
  {
    hide Quoted, Marks, IdentLike, EndsIdent;
    var w, n := Quoted(v)[i..] + "'", |Quoted(v)| - i + 1;
    assert ValueRest(v, i, t) == w + t;
    assert (w + t)[a..b] == t[a - n..b - n] && (w + t)[b..] == t[b - n..];
  }

  lemma ValueRun(v: string, i: nat, t: string, a: int, b: int)
    requires NulFree(v) && 7 <= i <= |Quoted(v)| && t != "" && t[0] in ">\n" && ShortRuns(t, |Quoted(v)|)
    requires Tame(ValueRest(v, i, t)) && Marks(ValueRest(v, i, t)) == Marks(t) && RunAt(ValueRest(v, i, t), a, b)
    ensures var u := ValueRest(v, i, t);
            u[b] == '=' || |Entities.Escape(Entities.Decode(u[a..b]), Entities.SingleQuote)| < |Quoted(v)|
  {
    hide Entities.Escape, Entities.Decode, EndsIdent, IdentLike, Marks, Tame, Quoted, ValueRest;
    RunEndsValue(v, i, t, a, b);
    if a <= |Quoted(v)| - i {
      ValuePart(v, i, t, a, b);
    } else {
      RunBehindValue(v, i, t, a, b);
    }
  }

  /** Whatever identifier is taken from the rest of a value, it is shorter than the value. */
  lemma ValueRuns(v: string, i: nat, t: string)
    requires NulFree(v) && 7 <= i <= |Quoted(v)| && t != "" && t[0] in ">\n" && ShortRuns(t, |Quoted(v)|)
    requires Tame(ValueRest(v, i, t)) && Marks(ValueRest(v, i, t)) == Marks(t)
    ensures ShortRuns(ValueRest(v, i, t), |Quoted(v)|)
  {
    hide Entities.Escape, Entities.Decode, EndsIdent, IdentLike, Marks, Tame, Quoted, ValueRest;
    var u := ValueRest(v, i, t);
    forall a, b | RunAt(u, a, b)
      ensures u[b] == '=' || |Entities.Escape(Entities.Decode(u[a..b]), Entities.SingleQuote)| < |Quoted(v)|
    {
      ValueRun(v, i, t, a, b);
    }
  }

  // ----- what has been gathered where a token does not fit

  /** Exactly the first `s` atoms have been gathered. */
  predicate Gathered(atoms: seq<Atom>, s: nat, below: seq<Level>, l: Level) {
    s <= |atoms| && StackAtoms(below, l) == atoms[..s]
  }

  /** What does not change while a tree is read. */
  predicate Sane(cfg: Config, atoms: seq<Atom>, below: seq<Level>) {
    AllGiven(atoms) && Opened(below) && !cfg.multiText
  }

  lemma GatheredMore(atoms: seq<Atom>, s: nat, below: seq<Level>, l: Level, l': Level, more: seq<Atom>)
    requires Gathered(atoms, s, below, l) && LevelAtoms(l') == LevelAtoms(l) + more
    requires s + |more| <= |atoms| && atoms[s..s + |more|] == more
    ensures Gathered(atoms, s + |more|, below, l')
  {
    hide LevelAtoms, StackAtoms;
    StackOfMore(below, l, l', more);
    assert atoms[..s + |more|] == atoms[..s] + atoms[s..s + |more|];
  }

  lemma GatheredProp(atoms: seq<Atom>, s: nat, below: seq<Level>, l: Level, p: Prop)
    requires Gathered(atoms, s, below, l) && Pending(l.state) && s < |atoms| && atoms[s] == Attr(p.name, p.value)
    ensures Gathered(atoms, s + 1, below, WithProp(l, p))
  {
    hide StackAtoms, PropAtoms, KidsAtoms;
    PropAtomsGrow(l.props, p);
    var more := [Attr(p.name, p.value)];
    assert LevelAtoms(WithProp(l, p)) == LevelAtoms(l) + more;
    GatheredMore(atoms, s, below, l, WithProp(l, p), more);
  }

  lemma GatheredTagName(atoms: seq<Atom>, s: nat, below: seq<Level>, l: Level, name: string)
    requires Gathered(atoms, s, below, l) && l.state == AtIdle && s < |atoms| && atoms[s] == Tag(name)
    ensures Gathered(atoms, s + 1, below, l.(state := AtAttribute, name := name, props := []))
  {
    hide StackAtoms, KidsAtoms;
    var l' := l.(state := AtAttribute, name := name, props := []);
    assert PropAtoms([]) == [];
    assert LevelAtoms(l') == LevelAtoms(l) + [Tag(name)];
    GatheredMore(atoms, s, below, l, l', [Tag(name)]);
  }

  lemma NoPropAtoms()
    ensures PropAtoms([]) == []
  {
  }

  lemma GatheredTag(atoms: seq<Atom>, s: nat, below: seq<Level>, l: Level, n: Node, x: string)
    requires Gathered(atoms, s, below, l) && l.state == AtIdle && n.Element? && Next(atoms, s, NodeAtoms(n), x)
    ensures Gathered(atoms, s + 1 + |n.props|, below, AfterTag(l, n))
  {
    hide StackAtoms, PropAtoms, KidsAtoms, AfterProps, Marks;
    NextNode(atoms, s, n, x);
    AfterPropsKeeps(l.(state := AtAttribute, name := n.name, props := []), n.props);
    assert [] + n.props == n.props;
    var named := l.(state := AtAttribute, name := n.name, props := []);
    GatheredTagName(atoms, s, below, l, n.name);
    assert PropAtoms([]) == [] by { NoPropAtoms(); }
    assert LevelAtoms(AfterTag(l, n)) == LevelAtoms(named) + PropAtoms(n.props);
    GatheredMore(atoms, s + 1, below, named, AfterTag(l, n), PropAtoms(n.props));
  }

  lemma GatheredNode(atoms: seq<Atom>, s: nat, below: seq<Level>, l: Level, n: Node)
    requires Gathered(atoms, s, below, l) && l.state == AtIdle && n.Element? && n.data == None
    requires s + |NodeAtoms(n)| <= |atoms| && atoms[s..s + |NodeAtoms(n)|] == NodeAtoms(n)
    ensures Gathered(atoms, s + |NodeAtoms(n)|, below, AfterNode(l, n))
  {
    hide StackAtoms, NodeAtoms, AfterNode;
    AfterNodeAppends(l, n);
    KidsConcat(l.node.child, [n]);
    KidsOfOne(n);
    assert LevelAtoms(AfterNode(l, n)) == LevelAtoms(l) + NodeAtoms(n);
    GatheredMore(atoms, s, below, l, AfterNode(l, n), NodeAtoms(n));
  }

  lemma GatheredOpened(atoms: seq<Atom>, s: nat, below: seq<Level>, l: Level)
    requires Gathered(atoms, s, below, l) && Opened(below) && l.state == AtAttribute
    ensures Gathered(atoms, s, below + [l], FRESH) && Opened(below + [l])
  {
    hide StackAtoms;
    StackOfOpened(below, l);
  }

  /** An error that leaves fewer atoms. */
  lemma TooFewLeft(atoms: seq<Atom>, s: nat, below: seq<Level>, l: Level)
    requires Gathered(atoms, s, below, l) && Opened(below) && (s < |atoms| || below != [] || Pending(l.state))
    ensures EndsOtherwise(atoms, Finished(false, Bottom(below, l).node))
  {
    hide StackAtoms, KidsAtoms, Bottom;
    BottomAtoms(below, l);
  }

  // ----- a value that does not fit

  lemma EscapedLengthOf(name: string, v: string)
    ensures EscapedLength(Attr(name, Some(v))) == |Quoted(v)|
  {
  }

  lemma TornValue(cfg: Config, v: string, t: string, size: Size, below: seq<Level>, l: Level, atoms: seq<Atom>, s: nat)
    requires Sane(cfg, atoms, below) && l.state == AtString && Gathered(atoms, s, below, l)
    requires NulFree(v) && |Quoted(v)| >= size && Boundary(t, atoms) && t != "" && t[0] in ">\n" && ShortRuns(t, size)
    requires s + 1 + Marks(t) == |atoms| && atoms[s] == Attr(l.attr, Some(v))
    ensures EndsOtherwise(atoms, Reading(cfg, Ahead("'" + (Quoted(v) + ("'" + t)), Normal, size), below, l))
  {
    hide Reading, EndsOtherwise, Quoted, Tame, Fair, Marks, Lex, ShortRuns, StackAtoms, Count, TextCount;
    EscapedIsQuotable(v);
    LexString(Quoted(v), t, size);
    var i := Ahead(ValueRest(v, size, t), Normal, 2 * size);
    ReadSame(cfg, Ahead("'" + (Quoted(v) + ("'" + t)), Normal, size), i, below, l);
    ValuePiece(v, size, t, atoms, s);
    ShortRunsMore(t, size, |Quoted(v)|);
    ValueRuns(v, size, t);
    EscapedLengthOf(l.attr, v);
    assert WrongValue(atoms, i.text, s, l.attr);
    LostForGood(cfg, atoms, i, below, l);
  }

  // ----- a name that does not fit

  lemma RestOfName(cfg: Config, n: string, whole: string)
    requires PlainOrdinary(cfg, whole) && IsSuffix(n, whole)
    ensures NameRest(n) && NulFree(n) && |Fold(cfg, n)| == |n|
  {
    hide EndsIdent;
    assert forall i :: 0 <= i < |n| ==> n[i] == whole[|whole| - |n| + i];
    assert forall i :: 0 <= i < |n| ==> OrdinaryChar(n[i]);
  }

  lemma RestShrinks(n: string, whole: string, size: Size)
    requires IsSuffix(n, whole) && |n| >= size
    ensures IsSuffix(n[size..], whole) && |n[size..]| < |n|
  {
  }

  lemma EqualEndsIdent()
    ensures EndsIdent('=') && EndsIdent(' ')
  {
  }

  lemma FoldedActs(cfg: Config, names: seq<string>, l: Level, name: string)
    requires names != []
    ensures l.state == AtNode ==>
              Act1(cfg, names, l, Token(TIdent, name))
                  == Stay(l.(state := AtAttribute, name := Fold(cfg, name), props := []))
    ensures l.state == AtAttribute ==>
              Act1(cfg, names, l, Token(TIdent, name)) == Stay(l.(state := AtAttributeEquals, attr := Fold(cfg, name)))
    ensures l.state == AtNode ==> Act1(cfg, names, l, Token(TSepar, " ")) == Fail
  {
    hide Fold;
  }

  lemma WrongAttr(cfg: Config, n: string, x: string, size: Size, below: seq<Level>, l: Level)
    requires n != "" && NameRest(n) && NulFree(n) && |n| < size && x != "" && EndsIdent(x[0]) && l.state == AtAttribute
    ensures Reading(cfg, Ahead(n + x, Normal, size), below, l)
         == Reading(cfg, Ahead(x, Normal, size), below, l.(state := AtAttributeEquals, attr := Fold(cfg, n)))
  {
    hide Reading, Lex, Act1, Names, EndsIdent, Fold;
    LexName(n, x, size);
    var c := Call(TIdent, n, Ahead(x, Normal, size));
    TokenOfNulFree(c);
    FoldedActs(cfg, Names(below), l, n);
    ReadStay(cfg, Ahead(n + x, Normal, size), c, below, l, l.(state := AtAttributeEquals, attr := Fold(cfg, n)));
  }

  lemma SameStack(below: seq<Level>, l: Level, l': Level)
    requires Pending(l.state) && Pending(l'.state) && l' == l.(state := l'.state, attr := l'.attr)
    ensures StackAtoms(below, l') == StackAtoms(below, l)
  {
  }

  /** The name of a property, from the middle on. */
  lemma {:induction false} TornAttr(cfg: Config, n: string, p: Prop, t: string, size: Size, below: seq<Level>, l: Level,
      atoms: seq<Atom>, s: nat)
    requires Sane(cfg, atoms, below) && l.state == AtAttribute && Gathered(atoms, s, below, l)
    requires PlainProp(cfg, p) && OrdinaryName(p.name) && IsSuffix(n, p.name) && |n| < |p.name|
    requires Boundary(t, atoms) && (t != "" ==> t[0] != '\'') && s + 1 + Marks(t) == |atoms|
             && atoms[s] == Attr(p.name, p.value)
    ensures EndsOtherwise(atoms,
            Reading(cfg, Ahead(n + ("='" + (Quoted(p.value.value) + ("'" + t))), Normal, size), below, l))
    decreases |n|
  {
    hide Reading, EndsOtherwise, Quoted, Tame, Fair, Marks, Lex, StackAtoms, Count, TextCount, PlainName,
         OrdinaryName, IsMark;
    var value := "'" + (Quoted(p.value.value) + ("'" + t));
    var e := "='" + (Quoted(p.value.value) + ("'" + t));
    assert e == "=" + value;
    AttrPiece(p.value.value, t, atoms, s);
    if n == "" {
      assert n + e == e;
      LostForGood(cfg, atoms, Ahead(e, Normal, size), below, l);
    } else {
      RestOfName(cfg, n, p.name);
      EqualEndsIdent();
      LexName(n, e, size);
      if |n| < size {
        WrongAttr(cfg, n, e, size, below, l);
        var l' := l.(state := AtString, attr := Fold(cfg, n));
        ReadEquals(cfg, value, size, below, l.(state := AtAttributeEquals, attr := Fold(cfg, n)));
        SameStack(below, l, l');
        LostForGood(cfg, atoms, Ahead(value, Normal, size), below, l');
      } else {
        RestShrinks(n, p.name, size);
        ReadSame(cfg, Ahead(n + e, Normal, size), Ahead(n[size..] + e, Normal, 2 * size), below, l);
        TornAttr(cfg, n[size..], p, t, 2 * size, below, l, atoms, s);
      }
    }
  }

  lemma NoTagName(cfg: Config, x: string, size: Size, below: seq<Level>, l: Level)
    requires l.state == AtNode && x != "" && x[0] != ' ' && x[0] != '\t'
    ensures Reading(cfg, Ahead(" " + x, Normal, size), below, l) == Finished(false, Bottom(below, l).node)
  {
    hide Lex, Act1, Names, Run, Tokens, Bottom;
    LexBlanks(" ", x, size);
    var c := Call(TSepar, " ", Ahead(x, Normal, size));
    TokenOfNulFree(c);
    FoldedActs(cfg, Names(below), l, "");
    ReadCall(cfg, Ahead(" " + x, Normal, size), c, below, l);
  }

  lemma WrongTag(cfg: Config, n: string, x: string, size: Size, below: seq<Level>, l: Level)
    requires n != "" && NameRest(n) && NulFree(n) && |n| < size && x != "" && EndsIdent(x[0]) && l.state == AtNode
    ensures Reading(cfg, Ahead(n + x, Normal, size), below, l)
         == Reading(cfg, Ahead(x, Normal, size), below, l.(state := AtAttribute, name := Fold(cfg, n), props := []))
  {
    hide Reading, Lex, Act1, Names, EndsIdent, Fold;
    LexName(n, x, size);
    var c := Call(TIdent, n, Ahead(x, Normal, size));
    TokenOfNulFree(c);
    FoldedActs(cfg, Names(below), l, n);
    ReadStay(cfg, Ahead(n + x, Normal, size), c, below, l, l.(state := AtAttribute, name := Fold(cfg, n), props := []));
  }

  lemma TornTagDeviates(cfg: Config, n: string, whole: string, below: seq<Level>, l: Level, atoms: seq<Atom>, s: nat)
    requires l.state == AtNode && Gathered(atoms, s, below, l) && s < |atoms| && atoms[s] == Tag(whole)
    requires |Fold(cfg, n)| == |n| < |whole|
    ensures Deviates(StackAtoms(below, l.(state := AtAttribute, name := Fold(cfg, n), props := [])), atoms)
  {
    hide KidsAtoms, StackAtoms, Fold;
    var l' := l.(state := AtAttribute, name := Fold(cfg, n), props := []);
    assert PropAtoms([]) == [];
    assert LevelAtoms(l') == LevelAtoms(l) + [Tag(Fold(cfg, n))];
    StackOfMore(below, l, l', [Tag(Fold(cfg, n))]);
    assert StackAtoms(below, l')[s] == Tag(Fold(cfg, n));
  }

  /** The name of a tag, from the middle on. */
  lemma {:induction false} TornTag(cfg: Config, n: string, whole: string, x: string, size: Size, below: seq<Level>,
          l: Level, atoms: seq<Atom>, s: nat)
    requires Sane(cfg, atoms, below) && l.state == AtNode && Gathered(atoms, s, below, l) && s < |atoms|
             && atoms[s] == Tag(whole)
    requires PlainOrdinary(cfg, whole) && IsSuffix(n, whole) && |n| < |whole|
    requires Tame(" " + x) && Fair(" " + x, atoms) && x != "" && x[0] != ' ' && x[0] != '\t'
    ensures EndsOtherwise(atoms, Reading(cfg, Ahead(n + (" " + x), Normal, size), below, l))
    decreases |n|
  {
    hide Reading, EndsOtherwise, Tame, Fair, Lex, StackAtoms, PlainOrdinary;
    if n == "" {
      assert n + (" " + x) == " " + x;
      NoTagName(cfg, x, size, below, l);
      TooFewLeft(atoms, s, below, l);
    } else {
      RestOfName(cfg, n, whole);
      EqualEndsIdent();
      LexName(n, " " + x, size);
      if |n| < size {
        WrongTag(cfg, n, " " + x, size, below, l);
        var l' := l.(state := AtAttribute, name := Fold(cfg, n), props := []);
        TornTagDeviates(cfg, n, whole, below, l, atoms, s);
        LostForGood(cfg, atoms, Ahead(" " + x, Normal, size), below, l');
      } else {
        RestShrinks(n, whole, size);
        ReadSame(cfg, Ahead(n + (" " + x), Normal, size), Ahead(n[size..] + (" " + x), Normal, 2 * size), below, l);
        TornTag(cfg, n[size..], whole, x, 2 * size, below, l, atoms, s);
      }
    }
  }

  // ----- trees in which something does not fit

  /** One property that does not fit. */
  lemma TornProp(cfg: Config, p: Prop, t: string, size: Size, below: seq<Level>, l: Level, atoms: seq<Atom>, s: nat)
    requires Sane(cfg, atoms, below) && l.state == AtAttribute && Gathered(atoms, s, below, l)
    requires PlainProp(cfg, p) && OrdinaryName(p.name) && (|p.name| >= size || |Quoted(p.value.value)| >= size)
    requires Boundary(t, atoms) && t != "" && t[0] in ">\n" && ShortRuns(t, size)
    requires s + 1 + Marks(t) == |atoms| && atoms[s] == Attr(p.name, p.value)
    ensures EndsOtherwise(atoms,
            Reading(cfg, Ahead(p.name + ("='" + (Quoted(p.value.value) + ("'" + t))), Normal, size), below, l))
  {
    hide Reading, EndsOtherwise, Quoted, Boundary, Marks, Lex, StackAtoms, PlainName, OrdinaryName, Act1, Names;
    var value := "'" + (Quoted(p.value.value) + ("'" + t));
    var e := "='" + (Quoted(p.value.value) + ("'" + t));
    assert e == "=" + value;
    EqualEndsIdent();
    if |p.name| >= size {
      PlainNameIsRest(cfg, p.name);
      LexName(p.name, e, size);
      ReadSame(cfg, Ahead(p.name + e, Normal, size), Ahead(p.name[size..] + e, Normal, 2 * size), below, l);
      TornAttr(cfg, p.name[size..], p, t, 2 * size, below, l, atoms, s);
    } else {
      var l1 := l.(state := AtAttributeEquals, attr := p.name);
      var l2 := l1.(state := AtString);
      PlainNameFolds(cfg, p.name);
      NameActs(cfg, Names(below), l, p.name);
      ReadName(cfg, p.name, e, size, below, l, l1);
      ReadEquals(cfg, value, size, below, l1);
      SameStack(below, l, l2);
      TornValue(cfg, p.value.value, t, size, below, l2, atoms, s);
    }
  }

  lemma {:induction false} TornProps(cfg: Config, props: seq<Prop>, pad: nat, x: string, size: Size,
          below: seq<Level>, l: Level, atoms: seq<Atom>, s: nat)
    requires Sane(cfg, atoms, below) && l.state == AtAttribute && Gathered(atoms, s, below, l) && pad > 0
    requires PropsSize(props, pad, size) == None && Next(atoms, s, PropAtoms(props), x)
    requires OrdinaryProps(props) && forall i :: 0 <= i < |props| ==> PlainProp(cfg, props[i])
    requires Boundary(x, atoms) && x != "" && x[0] == '>' && ShortRuns(x, size)
    ensures EndsOtherwise(atoms, Reading(cfg, Ahead(PropsText(props, pad, x), Normal, size), below, l))
    decreases |props|
  {
    hide Reading, EndsOtherwise, Quoted, Boundary, Marks, StackAtoms, PlainName, OrdinaryName, PropAtoms, ShortRuns,
         Blanks, Grown;
    var p, rest := props[0], props[1..];
    var text := PropsText(rest, pad, x);
    NextAttr(atoms, s, props, x);
    PropsPiece(cfg, rest, pad, x, atoms, s + 1);
    GapPiece(rest, pad, text, atoms);
    if |p.name| >= size || |Quoted(p.value.value)| >= size {
      GapRuns(cfg, rest, pad, x, atoms, s + 1, size);
      TornProp(cfg, p, GapText(rest, pad, text), size, below, l, atoms, s);
    } else {
      ReadProp(cfg, p, GapText(rest, pad, text), size, below, l);
      NextProp(cfg, rest, pad, x);
      ReadGap(cfg, pad, text, size, below, WithProp(l, p));
      GatheredProp(atoms, s, below, l, p);
      ShortRunsMore(x, size, Grown(size, pad));
      TornProps(cfg, rest, pad, x, Grown(size, pad), below, WithProp(l, p), atoms, s + 1);
    }
  }

  lemma GatheredAtNode(atoms: seq<Atom>, s: nat, below: seq<Level>, l: Level)
    requires Gathered(atoms, s, below, l) && l.state == AtIdle
    ensures Gathered(atoms, s, below, l.(state := AtNode))
  {
  }

  lemma BoundaryParts(t: string, atoms: seq<Atom>)
    requires Boundary(t, atoms)
    ensures Tame(t) && Fair(t, atoms)
  {
    hide Tame, Fair;
  }

  lemma OneBlank(size: Size)
    ensures Grown(size, 1) == size
  {
  }

  /** The start tag, where its name or one of its properties does not fit. */
  lemma TornStart(cfg: Config, n: Node, indent: nat, kids: string, size: Size, below: seq<Level>, l: Level,
          atoms: seq<Atom>, s: nat)
    requires Sane(cfg, atoms, below) && l.state == AtIdle && Gathered(atoms, s, below, l) && Ordinary(cfg, n)
    requires |n.name| >= size || PropsSize(n.props, indent + 2 + |n.name|, size) == None
    requires Boundary(kids, atoms) && kids != "" && kids[0] == '\n' && (|n.name| < size ==> ShortRuns(kids, size))
    requires s + 1 + |n.props| + Marks(kids) == |atoms| && atoms[s] == Tag(n.name)
    requires atoms[s + 1..s + 1 + |n.props|] == PropAtoms(n.props)
    ensures var props := PropsText(n.props, indent + 2 + |n.name|, ">" + kids);
            EndsOtherwise(atoms, Reading(cfg, Ahead("<" + (n.name + (" " + props)), Normal, size), below, l))
  {
    hide Reading, EndsOtherwise, Boundary, Marks, StackAtoms, PlainName, OrdinaryName, PropAtoms, ShortRuns,
         PropsText, Grown;
    hide PropsSize, Act1, Names, Lex, Fold;
    var pad := indent + 2 + |n.name|;
    var props := PropsText(n.props, pad, ">" + kids);
    var l1 := l.(state := AtNode);
    NameStart(cfg, n);
    EndPiece(kids, atoms);
    PropsPiece(cfg, n.props, pad, ">" + kids, atoms, s + 1);
    BlankPiece(" ", props, atoms);
    PropsStart(cfg, n.props, pad, kids);
    TagNameStart(cfg, n.name, " " + props);
    ReadTagStart(cfg, n.name + (" " + props), size, below, l);
    EqualEndsIdent();
    if |n.name| >= size {
      PlainNameIsRest(cfg, n.name);
      LexName(n.name, " " + props, size);
      ReadSame(cfg, Ahead(n.name + (" " + props), Normal, size),
          Ahead(n.name[size..] + (" " + props), Normal, 2 * size), below, l1);
      GatheredAtNode(atoms, s, below, l);
      BoundaryParts(" " + props, atoms);
      TornTag(cfg, n.name[size..], n.name, props, 2 * size, below, l1, atoms, s);
    } else {
      var l2 := l.(state := AtAttribute, name := n.name, props := []);
      PlainNameFolds(cfg, n.name);
      NameActs(cfg, Names(below), l1, n.name);
      ReadName(cfg, n.name, " " + props, size, below, l1, l2);
      ReadBlanks(cfg, " ", props, size, below, l2);
      assert Grown(size, 1) == size by { OneBlank(size); }
      GatheredTagName(atoms, s, below, l, n.name);
      SeparatorRuns('>', kids, size);
      TornProps(cfg, n.props, pad, ">" + kids, size, below, l2, atoms, s + 1);
    }
  }

  lemma {:induction false} TornNode(cfg: Config, n: Node, indent: nat, x: string, size: Size, below: seq<Level>,
          l: Level, atoms: seq<Atom>, s: nat)
    requires Sane(cfg, atoms, below) && l.state == AtIdle && Gathered(atoms, s, below, l) && Ordinary(cfg, n)
    requires NodeSize(n, indent, size) == None && Next(atoms, s, NodeAtoms(n), x) && |below| < MAX_RECURSION
    requires Boundary(x, atoms) && x != "" && x[0] == '\n' && ShortRuns(x, size)
    ensures EndsOtherwise(atoms, Reading(cfg, Ahead(NodeText(n, indent, x), Normal, size), below, l))
    decreases n
  {
    hide Reading, EndsOtherwise, Boundary, Marks, StackAtoms, PlainName, OrdinaryName, PropAtoms, ShortRuns,
         PropsText, Grown;
    hide KidsText, CloseText, KidsAtoms, NodeAtoms, AfterTag, PropsSize, KidsSize;
    var close := CloseText(n.name, indent, x);
    var kids := KidsText(n.child, indent + 2, close);
    NextNode(atoms, s, n, x);
    ClosePiece(cfg, n.name, indent, x, atoms);
    CloseTextFirst(n.name, indent, x);
    KidsPiece(cfg, n.child, indent + 2, close, atoms, s + 1 + |n.props|);
    if |n.name| >= size || PropsSize(n.props, indent + 2 + |n.name|, size) == None {
      if |n.name| < size {
        NameStart(cfg, n);
        CloseRuns(cfg, n.name, indent, x, atoms, size);
        KidsRuns(cfg, n.child, indent + 2, close, size);
      }
      TornStart(cfg, n, indent, kids, size, below, l, atoms, s);
    } else {
      OrdinaryIsPrintable(cfg, n);
      var behind := PropsSize(n.props, indent + 2 + |n.name|, size).value;
      ParseTag(cfg, n, indent, kids, size, below, l);
      AfterTagKeeps(l, n);
      ParseOpen(cfg, kids, behind, below, AfterTag(l, n));
      GatheredTag(atoms, s, below, l, n, x);
      if |below| + 2 > MAX_RECURSION {
        TooFewLeft(atoms, s + 1 + |n.props|, below, AfterTag(l, n));
      } else {
        GatheredOpened(atoms, s + 1 + |n.props|, below, AfterTag(l, n));
        ShortRunsMore(x, size, behind);
        CloseRuns(cfg, n.name, indent, x, atoms, behind);
        TornKids(cfg, n.child, indent + 2, close, behind, below + [AfterTag(l, n)], FRESH, atoms, s + 1 + |n.props|);
      }
    }
  }

  lemma {:induction false} TornKids(cfg: Config, nodes: seq<Node>, indent: nat, x: string, size: Size,
          below: seq<Level>, l: Level, atoms: seq<Atom>, s: nat)
    requires Sane(cfg, atoms, below) && l.state == AtIdle && l.node.data == None && Gathered(atoms, s, below, l)
    requires forall i :: 0 <= i < |nodes| ==> Ordinary(cfg, nodes[i])
    requires KidsSize(nodes, indent, size) == None && Next(atoms, s, KidsAtoms(nodes), x) && 0 < |below| < MAX_RECURSION
    requires Boundary(x, atoms) && x != "" && x[0] == '\n' && ShortRuns(x, size)
    ensures EndsOtherwise(atoms, Reading(cfg, Ahead(KidsText(nodes, indent, x), Data, size), below, l))
    decreases nodes
  {
    hide Reading, EndsOtherwise, Boundary, Marks, StackAtoms, PlainName, OrdinaryName, ShortRuns, Grown;
    hide NodeText, NodeAtoms, NodeSize, AfterNode, Blanks;
    var n, rest := nodes[0], KidsText(nodes[1..], indent, x);
    var grown := Grown(size, 1 + indent);
    var m := |NodeAtoms(n)|;
    OrdinaryIsPrintable(cfg, n);
    NextKid(atoms, s, nodes, x);
    KidsPiece(cfg, nodes[1..], indent, x, atoms, s + m);
    if NodeSize(n, indent, grown) == None || |below| + 1 + Depth(n) > MAX_RECURSION {
      NodeTextStart(n, indent, rest);
      ReadLineBreak(cfg, indent, NodeText(n, indent, rest)[1..], size, below, l);
      if NodeSize(n, indent, grown) == None {
        KidsRuns(cfg, nodes[1..], indent, x, size);
        ShortRunsMore(rest, size, grown);
        TornNode(cfg, n, indent, rest, grown, below, l, atoms, s);
      } else {
        ParseDeepNode(cfg, n, indent, rest, grown, below, l);
        TooFewLeft(atoms, s, below, l);
      }
    } else {
      var behind := NodeSize(n, indent, grown).value;
      ParseKid(cfg, n, indent, rest, size, below, l);
      AfterNodeAppends(l, n);
      GatheredNode(atoms, s, below, l, n);
      ShortRunsMore(x, size, behind);
      TornKids(cfg, nodes[1..], indent, x, behind, below, AfterNode(l, n), atoms, s + m);
    }
  }

  // ----- the theorem

  lemma AtomsOfPropsGiven(cfg: Config, props: seq<Prop>)
    requires forall i :: 0 <= i < |props| ==> PlainProp(cfg, props[i])
    ensures AllGiven(PropAtoms(props))
  {
    hide PlainName;
  }

  lemma GivenConcat(a: seq<Atom>, b: seq<Atom>)
    requires AllGiven(a) && AllGiven(b)
    ensures AllGiven(a + b)
  {
  }

  lemma TagGiven(name: string)
    ensures AllGiven([Tag(name)]) && AllGiven([])
  {
  }

  lemma {:induction false} AtomsGiven(cfg: Config, n: Node)
    requires Ordinary(cfg, n)
    ensures AllGiven(NodeAtoms(n))
    decreases n, 0
  {
    hide PlainName, PropAtoms, OrdinaryName, AllGiven;
    AtomsOfPropsGiven(cfg, n.props);
    KidsGiven(cfg, n.child);
    TagGiven(n.name);
    GivenConcat([Tag(n.name)], PropAtoms(n.props));
    GivenConcat([Tag(n.name)] + PropAtoms(n.props), KidsAtoms(n.child));
  }

  lemma {:induction false} KidsGiven(cfg: Config, nodes: seq<Node>)
    requires forall i :: 0 <= i < |nodes| ==> Ordinary(cfg, nodes[i])
    ensures AllGiven(KidsAtoms(nodes))
    decreases nodes
  {
    hide PlainName, NodeAtoms, OrdinaryName, AllGiven;
    TagGiven("");
    if nodes != [] {
      AtomsGiven(cfg, nodes[0]);
      KidsGiven(cfg, nodes[1..]);
      GivenConcat(NodeAtoms(nodes[0]), KidsAtoms(nodes[1..]));
    }
  }

  lemma EndIsBoundary(atoms: seq<Atom>)
    ensures Boundary("", atoms) && Marks("") == 0
  {
    assert atoms[|atoms|..] == [];
  }

  lemma LastLineIsBoundary(atoms: seq<Atom>)
    ensures Boundary("\n", atoms) && Marks("\n") == 0
  {
    hide Boundary, Marks;
    EndIsBoundary(atoms);
    assert "\n" == ['\n'] + "";
    FillerChar('\n', "", atoms);
  }

  lemma LastLineRuns(m: nat)
    requires m > 0
    ensures ShortRuns("\n", m)
  {
    hide Entities.Escape, Entities.Decode, Marks, EndsIdent, IdentLike;
    Entities.EmptyTexts(Entities.SingleQuote);
    forall i, j | RunAt("\n", i, j)
      ensures "\n"[j] == '=' || |Entities.Escape(Entities.Decode("\n"[i..j]), Entities.SingleQuote)| < m
    {
      assert "\n"[i..j] == "";
    }
  }

  lemma TextHasNone(n: Node)
    ensures n.Text? ==> NodeAtoms(n) == []
  {
  }

  /** The elements of a child list hold all of its atoms. */
  lemma {:induction false} AtomsOfElements(child: seq<Node>)
    ensures KidsAtoms(XmlRoot.Elements(child)) == KidsAtoms(child)
    decreases |child|
  {
    hide NodeAtoms, KidsAtoms;
    if child == [] {
    } else {
      var m := |child| - 1;
      AtomsOfElements(child[..m]);
      assert child == child[..m] + [child[m]];
      KidsConcat(child[..m], [child[m]]);
      KidsOfOne(child[m]);
      KidsConcat(XmlRoot.Elements(child[..m]), [child[m]]);
      TextHasNone(child[m]);
      assert XmlRoot.Elements(child[..m]) + [] == XmlRoot.Elements(child[..m]);
    }
  }

  lemma SuccessHasAtoms(n: Node, f: Final)
    requires n.Element? && EndsOtherwise(NodeAtoms(n), f)
    ensures XmlRoot.FinalOutcome(AtEndOfFile(f)) != XmlRoot.Success([n])
  {
    hide NodeAtoms, KidsAtoms, XmlRoot.IsQuestion, XmlRoot.Elements, AtEndOfFile, XmlRoot.Rotated;
    var g := AtEndOfFile(f);
    if g.Finished? && XmlRoot.FinalOutcome(g) == XmlRoot.Success([n]) {
      XmlRoot.RootConservesNodes(g.node.child, [n]);
      assert [n][1..] + [[n][0]] == [n];
      AtomsOfElements(g.node.child);
      KidsOfOne(n);
    }
  }

  lemma NothingGathered(atoms: seq<Atom>)
    ensures Gathered(atoms, 0, [], FRESH)
  {
    assert atoms[..0] == [];
  }

  /**
   A tree whose names hold nothing that is escaped comes back from its printed
   text exactly when the parser can follow its depth and every name and value
   in it is shorter than the token buffer at its place.
   */
  lemma TreeComesBackIff(cfg: Config, n: Node)
    requires Ordinary(cfg, n) && !cfg.multiText
    ensures XmlRoot.ParseDocument(cfg, DumpNode(n, 0)) == XmlRoot.Success([n])
       <==> Depth(n) <= 25 && NodeSize(n, 0, TOKEN_SIZE).Some?
  {
    hide NodeSize, DumpNode, NodeText, Run, Tokens, Ordinary, NodeAtoms, EndsOtherwise, AtEndOfFile,
         XmlRoot.FinalOutcome;
    hide Boundary, ShortRuns, XmlRoot.ParseDocument;
    OrdinaryIsPrintable(cfg, n);
    if NodeSize(n, 0, TOKEN_SIZE).Some? {
      ParseUndoesDump(cfg, n);
    } else {
      var atoms := NodeAtoms(n);
      DumpIsNodeText(cfg, n);
      XmlRoot.ParseOfMachine(cfg, DumpNode(n, 0));
      AtomsGiven(cfg, n);
      LastLineIsBoundary(atoms);
      LastLineRuns(TOKEN_SIZE);
      NothingGathered(atoms);
      assert atoms[0..0 + |atoms|] == atoms;
      TornNode(cfg, n, 0, "\n", TOKEN_SIZE, [], FRESH, atoms, 0);
      SuccessHasAtoms(n, Run(cfg, TokensOf(DumpNode(n, 0)), [], FRESH));
    }
  }
}
