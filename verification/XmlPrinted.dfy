/**
 What the printed text of a tree has in it, for trees whose names hold nothing
 that is escaped: one mark for every tag and property, in document order, and
 between two marks the characters of one value and of names.
 */
module XmlPrinted {
  import opened CText
  import opened XmlTree
  import opened L = XmlLexer
  import opened XmlBuilder
  import opened XmlPrinter
  import opened XmlRoundTripLexing
  import opened XmlMarks
  import opened XmlAtoms
  import opened XmlOverflow
  import Entities

  /** A character that the escaper leaves as it is. */
  predicate OrdinaryChar(c: char) {
    c > ' ' && c as int != 127 && c != '\'' && c != '&'
  }

  predicate OrdinaryName(s: string) {
    forall i :: 0 <= i < |s| ==> OrdinaryChar(s[i])
  }

  predicate OrdinaryProps(props: seq<Prop>) {
    forall i :: 0 <= i < |props| ==> OrdinaryName(props[i].name)
  }

  /** A printable tree in whose names nothing needs escaping. */
  predicate Ordinary(cfg: Config, n: Node) {
    && n.Element? && n.data == None && PlainName(cfg, n.name) && OrdinaryName(n.name)
    && OrdinaryProps(n.props) && (forall i :: 0 <= i < |n.props| ==> PlainProp(cfg, n.props[i]))
    && forall i :: 0 <= i < |n.child| ==> Ordinary(cfg, n.child[i])
  }

  lemma {:induction false} OrdinaryIsPrintable(cfg: Config, n: Node)
    requires Ordinary(cfg, n)
    ensures Printable(cfg, n)
    decreases n
  {
    hide PlainName, PlainProp;
    forall i | 0 <= i < |n.child|
      ensures Printable(cfg, n.child[i])
    {
      OrdinaryIsPrintable(cfg, n.child[i]);
    }
  }

  // ----- the marks of a text are those of its atoms

  /** The counts are exactly those of the atoms that are left. */
  predicate Exact(t: string, atoms: seq<Atom>)
    requires Marks(t) <= |atoms|
  {
    var left := atoms[|atoms| - Marks(t)..];
    Count('=', t) == TextCount('=', left) && Count('\"', t) == TextCount('\"', left)
  }

  /** Outside values. */
  ghost predicate Boundary(t: string, atoms: seq<Atom>) {
    Tame(t) && Fair(t, atoms) && Marks(t) <= |atoms| && Exact(t, atoms) && Even(t)
  }

  lemma FairIsFairAt(t: string, atoms: seq<Atom>)
    requires Fair(t, atoms)
    ensures FairAt(t, atoms)
  {
    hide FairAt;
  }

  lemma FairMore(u: string, atoms: seq<Atom>)
    requires u != "" && FairAt(u, atoms) && Fair(u[1..], atoms)
    ensures Fair(u, atoms)
  {
    hide FairAt;
  }

  lemma TameMore(u: string)
    requires u != "" && TameAt(u) && Tame(u[1..])
    ensures Tame(u)
  {
    hide TameAt;
  }

  lemma CountMore(c: char, d: char, t: string)
    ensures Count(c, [d] + t) == (if c == d then 1 else 0) + Count(c, t)
  {
    assert ([d] + t)[1..] == t;
  }

  lemma MarksMore(d: char, t: string)
    ensures Marks([d] + t) == (if IsMark([d] + t) then 1 else 0) + Marks(t)
  {
    hide IsMark;
    assert ([d] + t)[1..] == t;
  }

  /** A character that neither starts nor ends anything. */
  predicate IsFiller(c: char) {
    c !in "<=&'\"?\0"
  }

  lemma FillerChar(d: char, t: string, atoms: seq<Atom>)
    requires Boundary(t, atoms) && IsFiller(d) && (t != "" ==> t[0] != '\'')
    requires d == '-' || d == '/' ==> t != "" && t[0] != '>'
    ensures Boundary([d] + t, atoms) && Marks([d] + t) == Marks(t)
  {
    hide Count, Marks, TextCount, RefAt, Tame, Fair;
    var u := [d] + t;
    assert u[0] == d && u[1..] == t;
    MarksMore(d, t);
    CountMore('=', d, t);
    CountMore('\"', d, t);
    CountMore('\'', d, t);
    FairIsFairAt(t, atoms);
    FairMore(u, atoms);
    assert TameAt(u);
    TameMore(u);
  }

  lemma FillerIsNoQuote()
    ensures !IsFiller('\'')
  {
  }

  lemma {:induction false} FillerPiece(w: string, t: string, atoms: seq<Atom>)
    requires Boundary(t, atoms) && (t != "" ==> t[0] != '\'')
    requires (forall i :: 0 <= i < |w| ==> IsFiller(w[i]) && w[i] != '>' && w[i] != '/')
             && (w != "" ==> w[|w| - 1] != '-')
    ensures Boundary(w + t, atoms) && Marks(w + t) == Marks(t)
    decreases |w|
  {
    hide Boundary, IsFiller;
    if w == "" {
      assert w + t == t;
    } else {
      FillerPiece(w[1..], t, atoms);
      assert w + t == [w[0]] + (w[1..] + t);
      FillerIsNoQuote();
      FillerChar(w[0], w[1..] + t, atoms);
    }
  }

  lemma EndPiece(t: string, atoms: seq<Atom>)
    requires Boundary(t, atoms) && (t != "" ==> t[0] != '\'')
    ensures Boundary(">" + t, atoms) && Marks(">" + t) == Marks(t)
  {
    hide Boundary;
    FillerChar('>', t, atoms);
  }

  lemma CloseStartPiece(t: string, atoms: seq<Atom>)
    requires Boundary(t, atoms) && t != "" && t[0] != '\'' && t[0] != '>'
    ensures Boundary("</" + t, atoms) && Marks("</" + t) == Marks(t)
  {
    hide Count, Marks, TextCount, RefAt, Tame, Fair;
    FillerChar('/', t, atoms);
    var u := "/" + t;
    var v := "</" + t;
    assert v == ['<'] + u && v[1..] == u && v[0] == '<' && v[1] == '/' && u[0] == '/';
    MarksMore('<', u);
    CountMore('=', '<', u);
    CountMore('\"', '<', u);
    CountMore('\'', '<', u);
    FairIsFairAt(u, atoms);
    FairMore(v, atoms);
    assert TameAt(v);
    TameMore(v);
  }

  /** The text counts of one atom more. */
  lemma TextCountMore(c: char, atoms: seq<Atom>, p: nat)
    requires p < |atoms|
    ensures TextCount(c, atoms[p..])
         == ValueCount(c, atoms[p]) + (if c == '=' && atoms[p].Attr? then 1 else 0) + TextCount(c, atoms[p + 1..])
  {
    hide ValueCount;
    assert atoms[p..][1..] == atoms[p + 1..];
  }

  lemma TagPiece(t: string, atoms: seq<Atom>, p: nat)
    requires Boundary(t, atoms) && t != "" && t[0] !in "/!?'" && p + 1 + Marks(t) == |atoms| && atoms[p].Tag?
    ensures Boundary("<" + t, atoms) && Marks("<" + t) == 1 + Marks(t)
  {
    hide Count, Marks, TextCount, RefAt, Tame, Fair;
    var u := "<" + t;
    assert u == ['<'] + t && u[1..] == t && u[0] == '<' && u[1] == t[0];
    MarksMore('<', t);
    CountMore('=', '<', t);
    CountMore('\"', '<', t);
    CountMore('\'', '<', t);
    TextCountMore('=', atoms, p);
    TextCountMore('\"', atoms, p);
    FairIsFairAt(t, atoms);
    FairMore(u, atoms);
    assert TameAt(u);
    TameMore(u);
  }

  // ----- values

  lemma SingleIsLiteral(c: char)
    ensures var e := Entities.EscapeChar(c, Entities.SingleQuote); |e| == 1 ==> e[0] != '&'
  {
  }

  lemma {:induction false} QuotedRefs(v: string, i: nat)
    requires NulFree(v) && i < |Quoted(v)| && Quoted(v)[i] == '&'
    ensures RefAt(Quoted(v)[i..])
    decreases |v|
  {
    hide Entities.EscapeChar;
    var e, rest := Entities.EscapeChar(v[0], Entities.SingleQuote), Quoted(v[1..]);
    assert Quoted(v) == e + rest;
    if i >= |e| {
      QuotedRefs(v[1..], i - |e|);
      assert (e + rest)[i..] == rest[i - |e|..];
    } else {
      RefChars(v[0]);
      SingleIsLiteral(v[0]);
      assert i == 0;
      assert StartsRef(v[0], Quoted(v));
      assert Quoted(v)[0..] == Quoted(v);
    }
  }

  lemma RefAtMore(a: string, b: string)
    requires RefAt(a)
    ensures RefAt(a + b)
  {
    hide Entities.EscapeChar;
    var c :| StartsRef(c, a);
    assert StartsRef(c, a + b);
  }

  /** Inside the value of the atom `p`, or with the quote in front of it. */
  ghost predicate Inside(t: string, atoms: seq<Atom>, p: nat) {
    Tame(t) && Fair(t, atoms) && p + 1 + Marks(t) == |atoms| && !Even(t)
  }

  lemma ClosingQuote(t: string, atoms: seq<Atom>, p: nat)
    requires Boundary(t, atoms) && (t != "" ==> t[0] != '\'') && p + 1 + Marks(t) == |atoms|
    ensures Inside("'" + t, atoms, p)
  {
    hide Count, Marks, TextCount, RefAt, Tame, Fair;
    var u := "'" + t;
    assert u == ['\''] + t && u[1..] == t && u[0] == '\'';
    MarksMore('\'', t);
    CountMore('=', '\'', t);
    CountMore('\"', '\'', t);
    CountMore('\'', '\'', t);
    FairIsFairAt(t, atoms);
    FairMore(u, atoms);
    assert TameAt(u);
    TameMore(u);
  }

  /** What is left of a value from its character `i` on, with the text behind it. */
  function ValueRest(v: string, i: nat, t: string): string
    requires i <= |Quoted(v)|
  {
    Quoted(v)[i..] + ("'" + t)
  }

  lemma QuotedIsLiteral(v: string)
    requires NulFree(v)
    ensures forall i :: 0 <= i < |Quoted(v)| ==> IsLiteral(Quoted(v)[i])
  {
    hide Entities.Escape;
    Entities.EscapeIsClean(v, Entities.SingleQuote);
    forall i | 0 <= i < |Quoted(v)|
      ensures IsLiteral(Quoted(v)[i])
    {
      assert Entities.IsCleanAt(Quoted(v), Entities.SingleQuote, i);
    }
  }

  lemma ValueChar(v: string, i: nat, t: string)
    requires NulFree(v) && i < |Quoted(v)|
    ensures var u := ValueRest(v, i, t);
            && u == [Quoted(v)[i]] + ValueRest(v, i + 1, t) && IsLiteral(u[0])
            && u[0] !in "'\0" && (u[0] == '&' ==> RefAt(u))
            && ValueRest(v, i + 1, t)[0] != '>' && (i + 1 < |Quoted(v)| ==> ValueRest(v, i + 1, t)[0] != '\'')
  {
    hide RefAt, Quoted;
    EscapedIsQuotable(v);
    QuotedIsLiteral(v);
    if Quoted(v)[i] == '&' {
      QuotedRefs(v, i);
      RefAtMore(Quoted(v)[i..], "'" + t);
    }
  }

  lemma ValueRestCount(c: char, v: string, i: nat, t: string)
    requires i <= |Quoted(v)| && c in "=\""
    ensures Count(c, t) <= Count(c, ValueRest(v, i, t)) <= Count(c, v) + Count(c, t)
  {
    hide Entities.Escape;
    CountMore(c, '\'', t);
    CountConcat(c, Quoted(v)[i..], "'" + t);
    SuffixCounts(c, Quoted(v)[i..], Quoted(v));
    EscapeCounts(c, v);
  }

  lemma InsideMarks(t: string, atoms: seq<Atom>, p: nat)
    requires Inside("'" + t, atoms, p) && p + 1 + Marks(t) == |atoms|
    ensures Marks("'" + t) == Marks(t)
  {
    hide Tame, Fair, Marks;
  }

  lemma ValueStep(v: string, i: nat, t: string, atoms: seq<Atom>, p: nat)
    requires NulFree(v) && i < |Quoted(v)|
    requires Boundary(t, atoms) && p + 1 + Marks(t) == |atoms|
    requires atoms[p].Attr? && atoms[p].value == Some(v)
    requires Inside(ValueRest(v, i + 1, t), atoms, p) && Marks(ValueRest(v, i + 1, t)) == Marks(t)
    ensures Inside(ValueRest(v, i, t), atoms, p) && Marks(ValueRest(v, i, t)) == Marks(t)
  {
    hide Count, Marks, TextCount, RefAt, Tame, Fair, Quoted, ValueRest;
    ValueChar(v, i, t);
    var u, next := ValueRest(v, i, t), ValueRest(v, i + 1, t);
    assert u[1..] == next;
    MarksMore(u[0], next);
    CountMore('\'', u[0], next);
    ValueRestCount('=', v, i, t);
    ValueRestCount('\"', v, i, t);
    FairMore(u, atoms);
    assert TameAt(u);
    TameMore(u);
  }

  lemma {:induction false} ValuePiece(v: string, i: nat, t: string, atoms: seq<Atom>, p: nat)
    requires NulFree(v) && i <= |Quoted(v)|
    requires Boundary(t, atoms) && (t != "" ==> t[0] != '\'') && p + 1 + Marks(t) == |atoms|
    requires atoms[p].Attr? && atoms[p].value == Some(v)
    ensures Inside(ValueRest(v, i, t), atoms, p) && Marks(ValueRest(v, i, t)) == Marks(t)
    decreases |Quoted(v)| - i
  {
    hide Quoted, Boundary, Inside;
    if i == |Quoted(v)| {
      assert Quoted(v)[i..] == "";
      assert ValueRest(v, i, t) == "'" + t;
      ClosingQuote(t, atoms, p);
      InsideMarks(t, atoms, p);
    } else {
      ValuePiece(v, i + 1, t, atoms, p);
      ValueStep(v, i, t, atoms, p);
    }
  }

  lemma WholeValueCount(c: char, v: string, t: string)
    requires c in "=\""
    ensures Count(c, Quoted(v) + ("'" + t)) == Count(c, v) + Count(c, t)
  {
    hide Entities.Escape;
    CountMore(c, '\'', t);
    CountConcat(c, Quoted(v), "'" + t);
    EscapeCounts(c, v);
  }

  lemma OpeningQuote(v: string, t: string, atoms: seq<Atom>, p: nat)
    requires NulFree(v) && Boundary(t, atoms) && p + 1 + Marks(t) == |atoms|
    requires atoms[p].Attr? && atoms[p].value == Some(v)
    requires var w := Quoted(v) + ("'" + t); Inside(w, atoms, p) && Marks(w) == Marks(t)
    ensures var u := "'" + (Quoted(v) + ("'" + t)); Tame(u) && Fair(u, atoms) && Marks(u) == Marks(t) && Even(u)
  {
    hide Count, Marks, TextCount, RefAt, Tame, Fair, Quoted;
    var w := Quoted(v) + ("'" + t);
    var u := "'" + w;
    assert u == ['\''] + w && u[1..] == w && u[0] == '\'';
    MarksMore('\'', w);
    CountMore('=', '\'', w);
    CountMore('\"', '\'', w);
    CountMore('\'', '\'', w);
    WholeValueCount('=', v, t);
    WholeValueCount('\"', v, t);
    FairMore(u, atoms);
    assert TameAt(u);
    TameMore(u);
  }

  lemma EqualsSign(v: string, t: string, atoms: seq<Atom>, p: nat)
    requires NulFree(v) && Boundary(t, atoms) && p + 1 + Marks(t) == |atoms|
    requires atoms[p].Attr? && atoms[p].value == Some(v)
    requires var u := "'" + (Quoted(v) + ("'" + t)); Tame(u) && Fair(u, atoms) && Marks(u) == Marks(t) && Even(u)
    ensures var u := "='" + (Quoted(v) + ("'" + t)); Boundary(u, atoms) && Marks(u) == 1 + Marks(t) && IsMark(u)
  {
    hide Count, Marks, TextCount, RefAt, Tame, Fair, Quoted;
    var w := Quoted(v) + ("'" + t);
    var u := "'" + w;
    var x := "='" + w;
    assert x == ['='] + u && x[1..] == u && x[0] == '=' && u == ['\''] + w && u[0] == '\'';
    MarksMore('=', u);
    CountMore('=', '=', u);
    CountMore('\"', '=', u);
    CountMore('\'', '=', u);
    CountMore('=', '\'', w);
    CountMore('\"', '\'', w);
    WholeValueCount('=', v, t);
    WholeValueCount('\"', v, t);
    TextCountMore('=', atoms, p);
    TextCountMore('\"', atoms, p);
    FairMore(x, atoms);
    assert TameAt(x);
    TameMore(x);
  }

  /** A property's value, with the equals sign in front of it. */
  lemma AttrPiece(v: string, t: string, atoms: seq<Atom>, p: nat)
    requires NulFree(v)
    requires Boundary(t, atoms) && (t != "" ==> t[0] != '\'') && p + 1 + Marks(t) == |atoms|
    requires atoms[p].Attr? && atoms[p].value == Some(v)
    ensures var u := "='" + (Quoted(v) + ("'" + t)); Boundary(u, atoms) && Marks(u) == 1 + Marks(t) && IsMark(u)
    ensures var w := "'" + (Quoted(v) + ("'" + t)); Tame(w) && Fair(w, atoms) && Marks(w) == Marks(t)
  {
    hide Quoted, Boundary, Inside;
    ValuePiece(v, 0, t, atoms, p);
    assert Quoted(v)[0..] == Quoted(v);
    OpeningQuote(v, t, atoms, p);
    EqualsSign(v, t, atoms, p);
  }

  // ----- the printed pieces of a tree

  predicate PlainOrdinary(cfg: Config, name: string) {
    PlainName(cfg, name) && OrdinaryName(name)
  }

  lemma NameIsFiller(cfg: Config, name: string)
    requires PlainOrdinary(cfg, name)
    ensures forall i :: 0 <= i < |name| ==> IsFiller(name[i]) && !EndsIdent(name[i]) && name[i] != '>' && name[i] != '/'
    ensures name != "" && name[|name| - 1] != '-' && name[0] !in "/!?'>\n\t "
  {
    hide Fold;
  }

  lemma NamePiece(cfg: Config, name: string, t: string, atoms: seq<Atom>)
    requires PlainOrdinary(cfg, name) && Boundary(t, atoms) && (t != "" ==> t[0] != '\'')
    ensures Boundary(name + t, atoms) && Marks(name + t) == Marks(t)
    ensures name + t != "" && (name + t)[0] == name[0] && name[0] !in "/!?'>\n\t "
  {
    hide Boundary, Marks, Fold;
    NameIsFiller(cfg, name);
    FillerPiece(name, t, atoms);
  }

  lemma BlankPiece(b: string, t: string, atoms: seq<Atom>)
    requires (forall i :: 0 <= i < |b| ==> b[i] in " \n") && Boundary(t, atoms) && (t != "" ==> t[0] != '\'')
    ensures Boundary(b + t, atoms) && Marks(b + t) == Marks(t)
  {
    hide Boundary, Marks;
    FillerPiece(b, t, atoms);
  }

  lemma LineBreakPiece(indent: nat, t: string, atoms: seq<Atom>)
    requires Boundary(t, atoms) && (t != "" ==> t[0] != '\'')
    ensures var u := "\n" + (Blanks(indent) + t); Boundary(u, atoms) && Marks(u) == Marks(t)
  {
    hide Boundary, Marks;
    var b := "\n" + Blanks(indent);
    assert b + t == "\n" + (Blanks(indent) + t);
    BlankPiece(b, t, atoms);
  }

  lemma ClosePiece(cfg: Config, name: string, indent: nat, x: string, atoms: seq<Atom>)
    requires PlainOrdinary(cfg, name) && Boundary(x, atoms) && (x != "" ==> x[0] != '\'')
    ensures var u := CloseText(name, indent, x); Boundary(u, atoms) && Marks(u) == Marks(x)
  {
    hide Boundary, Marks, PlainOrdinary, Blanks;
    EndPiece(x, atoms);
    NamePiece(cfg, name, ">" + x, atoms);
    CloseStartPiece(name + (">" + x), atoms);
    LineBreakPiece(indent, "</" + (name + (">" + x)), atoms);
  }

  /** The atoms from the `p`th on are those of the given piece of a tree, and then as many more as `x` has marks. */
  predicate Next(atoms: seq<Atom>, p: nat, piece: seq<Atom>, x: string) {
    p + |piece| + Marks(x) == |atoms| && atoms[p..p + |piece|] == piece
  }

  lemma NextAttr(atoms: seq<Atom>, p: nat, props: seq<Prop>, x: string)
    requires props != [] && Next(atoms, p, PropAtoms(props), x)
    ensures Next(atoms, p + 1, PropAtoms(props[1..]), x) && atoms[p] == Attr(props[0].name, props[0].value)
  {
    hide Marks;
    assert atoms[p..p + |props|][0] == PropAtoms(props)[0];
    assert atoms[p..p + |props|][1..] == PropAtoms(props)[1..] == PropAtoms(props[1..]);
  }

  /** What stands between a property and what follows it. */
  lemma GapPiece(props: seq<Prop>, pad: nat, t: string, atoms: seq<Atom>)
    requires Boundary(t, atoms) && t != "" && t[0] != '\''
    ensures var u := GapText(props, pad, t); Boundary(u, atoms) && Marks(u) == Marks(t) && u != "" && u[0] != '\''
  {
    hide Boundary, Marks;
    LineBreakPiece(pad, t, atoms);
  }

  /** One property in front of the text `t`. */
  lemma PropPiece(cfg: Config, p: Prop, t: string, atoms: seq<Atom>, k: nat)
    requires PlainProp(cfg, p) && OrdinaryName(p.name) && k + 1 + Marks(t) == |atoms|
    requires Boundary(t, atoms) && (t != "" ==> t[0] != '\'') && atoms[k] == Attr(p.name, p.value)
    ensures var u := p.name + ("='" + (Quoted(p.value.GetOr("")) + ("'" + t)));
            Boundary(u, atoms) && Marks(u) == 1 + Marks(t) && u != "" && u[0] !in "'/!?>\n\t "
  {
    hide Boundary, Marks, Quoted, PlainName, IsMark;
    AttrPiece(p.value.value, t, atoms, k);
    NamePiece(cfg, p.name, "='" + (Quoted(p.value.value) + ("'" + t)), atoms);
  }

  lemma {:induction false} PropsPiece(cfg: Config, props: seq<Prop>, pad: nat, x: string, atoms: seq<Atom>, p: nat)
    requires OrdinaryProps(props) && (forall i :: 0 <= i < |props| ==> PlainProp(cfg, props[i]))
    requires Boundary(x, atoms) && x != "" && x[0] != '\'' && Next(atoms, p, PropAtoms(props), x)
    ensures var u := PropsText(props, pad, x);
            Boundary(u, atoms) && Marks(u) == |props| + Marks(x) && u != "" && u[0] != '\''
    decreases |props|
  {
    hide Boundary, Marks, Quoted, PlainProp, OrdinaryName, PropAtoms, GapText;
    if props != [] {
      NextAttr(atoms, p, props, x);
      PropsPiece(cfg, props[1..], pad, x, atoms, p + 1);
      var text := PropsText(props[1..], pad, x);
      GapPiece(props[1..], pad, text, atoms);
      PropPiece(cfg, props[0], GapText(props[1..], pad, text), atoms, p);
    }
  }

  lemma SliceOfSlice<T>(s: seq<T>, p: nat, n: nat, a: nat, b: nat)
    requires a <= b <= n && p + n <= |s|
    ensures s[p..p + n][a..b] == s[p + a..p + b]
  {
    var u, w := s[p..p + n], s[p + a..p + b];
    forall i | 0 <= i < b - a
      ensures u[a..b][i] == w[i]
    {
      assert u[a..b][i] == u[a + i] == s[p + (a + i)];
    }
  }

  lemma NextNode(atoms: seq<Atom>, p: nat, n: Node, x: string)
    requires n.Element? && Next(atoms, p, NodeAtoms(n), x)
    ensures p < |atoms| && atoms[p] == Tag(n.name)
    ensures |atoms[p + 1..p + 1 + |n.props|]| == |n.props| && atoms[p + 1..p + 1 + |n.props|] == PropAtoms(n.props)
    ensures Next(atoms, p + 1 + |n.props|, KidsAtoms(n.child), x)
    ensures |NodeAtoms(n)| == 1 + |n.props| + |KidsAtoms(n.child)|
  {
    hide Marks, KidsAtoms, PropAtoms;
    var m, all := |n.props|, NodeAtoms(n);
    assert all[0] == Tag(n.name) && all[1..1 + m] == PropAtoms(n.props) && all[1 + m..|all|] == KidsAtoms(n.child);
    assert atoms[p..p + |all|][0] == atoms[p];
    SliceOfSlice(atoms, p, |all|, 1, 1 + m);
    SliceOfSlice(atoms, p, |all|, 1 + m, |all|);
  }

  lemma NextKid(atoms: seq<Atom>, p: nat, nodes: seq<Node>, x: string)
    requires nodes != [] && Next(atoms, p, KidsAtoms(nodes), x)
    ensures var m := |NodeAtoms(nodes[0])|;
            && p + m <= |atoms| && atoms[p..p + m] == NodeAtoms(nodes[0])
            && Next(atoms, p + m, KidsAtoms(nodes[1..]), x)
            && |KidsAtoms(nodes)| == m + |KidsAtoms(nodes[1..])|
  {
    hide Marks, NodeAtoms;
    var m, all := |NodeAtoms(nodes[0])|, KidsAtoms(nodes);
    assert atoms[p..p + |all|][..m] == all[..m];
    assert atoms[p..p + |all|][m..] == all[m..];
  }

  lemma CloseTextFirst(name: string, indent: nat, x: string)
    ensures var u := CloseText(name, indent, x); u != "" && u[0] == '\n'
  {
    hide Blanks;
  }

  /** A start tag in front of the text of its children. */
  lemma TagTextPiece(cfg: Config, n: Node, indent: nat, kids: string, atoms: seq<Atom>, p: nat)
    requires Ordinary(cfg, n) && Boundary(kids, atoms) && (kids != "" ==> kids[0] != '\'')
    requires p + 1 + |n.props| + Marks(kids) == |atoms| && atoms[p] == Tag(n.name)
    requires atoms[p + 1..p + 1 + |n.props|] == PropAtoms(n.props)
    ensures var u := "<" + (n.name + (" " + PropsText(n.props, indent + 2 + |n.name|, ">" + kids)));
            Boundary(u, atoms) && Marks(u) == 1 + |n.props| + Marks(kids)
  {
    hide Boundary, Marks, PlainName, PropsText, OrdinaryName, PropAtoms;
    EndPiece(kids, atoms);
    PropsPiece(cfg, n.props, indent + 2 + |n.name|, ">" + kids, atoms, p + 1);
    var props := PropsText(n.props, indent + 2 + |n.name|, ">" + kids);
    BlankPiece(" ", props, atoms);
    NamePiece(cfg, n.name, " " + props, atoms);
    TagPiece(n.name + (" " + props), atoms, p);
  }

  lemma {:induction false} NodePiece(cfg: Config, n: Node, indent: nat, x: string, atoms: seq<Atom>, p: nat)
    requires Ordinary(cfg, n) && Boundary(x, atoms) && (x != "" ==> x[0] != '\'') && Next(atoms, p, NodeAtoms(n), x)
    ensures var u := NodeText(n, indent, x); Boundary(u, atoms) && Marks(u) == |NodeAtoms(n)| + Marks(x)
    decreases n
  {
    hide Boundary, Marks, PlainName, PropsText, KidsText, CloseText, OrdinaryName, PropAtoms, KidsAtoms;
    NextNode(atoms, p, n, x);
    var close := CloseText(n.name, indent, x);
    ClosePiece(cfg, n.name, indent, x, atoms);
    CloseTextFirst(n.name, indent, x);
    KidsPiece(cfg, n.child, indent + 2, close, atoms, p + 1 + |n.props|);
    TagTextPiece(cfg, n, indent, KidsText(n.child, indent + 2, close), atoms, p);
  }

  lemma KidsTextFirst(nodes: seq<Node>, indent: nat, x: string)
    requires x != "" && x[0] == '\n'
    ensures var u := KidsText(nodes, indent, x); u != "" && u[0] == '\n'
    decreases nodes
  {
    hide NodeText;
  }

  lemma NodeTextFirst(n: Node, indent: nat, x: string)
    requires n.Element?
    ensures var u := NodeText(n, indent, x); u != "" && u[0] == '<'
  {
    hide PropsText, KidsText, CloseText;
  }

  lemma {:induction false} KidsPiece(cfg: Config, nodes: seq<Node>, indent: nat, x: string, atoms: seq<Atom>, p: nat)
    requires forall i :: 0 <= i < |nodes| ==> Ordinary(cfg, nodes[i])
    requires Boundary(x, atoms) && x != "" && x[0] == '\n' && Next(atoms, p, KidsAtoms(nodes), x)
    ensures var u := KidsText(nodes, indent, x);
            Boundary(u, atoms) && Marks(u) == |KidsAtoms(nodes)| + Marks(x) && u != "" && u[0] == '\n'
    decreases nodes
  {
    hide Boundary, Marks, NodeText, NodeAtoms, PlainName, OrdinaryName;
    KidsTextFirst(nodes, indent, x);
    if nodes != [] {
      var n := nodes[0];
      NextKid(atoms, p, nodes, x);
      KidsPiece(cfg, nodes[1..], indent, x, atoms, p + |NodeAtoms(n)|);
      var rest := KidsText(nodes[1..], indent, x);
      NodePiece(cfg, n, indent, rest, atoms, p);
      NodeTextFirst(n, indent, rest);
      LineBreakPiece(indent, NodeText(n, indent, rest), atoms);
    }
  }

  // ----- identifiers in front of the next mark

  lemma SeparatorFirst(u: string, j: nat)
    requires 0 < j <= |u| && EndsIdent(u[0]) && u[0] != '\\'
    ensures !IdentLike(u[0..j])
  {
    hide EndsIdent;
    assert u[0..j][0] == u[0];
  }

  /** A character that ends an identifier and is none. */
  lemma SeparatorRuns(c: char, t: string, m: nat)
    requires EndsIdent(c) && c != '\\' && m > 0
    requires IsMark([c] + t) || ShortRuns(t, m)
    ensures ShortRuns([c] + t, m)
  {
    hide EndsIdent, Entities.Escape, Entities.Decode, Marks, IsMark;
    var u := [c] + t;
    MarksMore(c, t);
    Entities.EmptyTexts(Entities.SingleQuote);
    forall i, j | RunAt(u, i, j)
      ensures u[j] == '=' || |Entities.Escape(Entities.Decode(u[i..j]), Entities.SingleQuote)| < m
    {
      if i < j {
        assert j == 0 || u[j..] == t[j - 1..];
        SuffixOf(t[j - 1..], t);
        if i == 0 {
          SeparatorFirst(u, j);
        } else {
          assert u[i..j] == t[i - 1..j - 1] && u[j] == t[j - 1];
          assert RunAt(t, i - 1, j - 1);
        }
      } else {
        assert u[i..j] == "";
      }
    }
  }

  lemma {:induction false} BlankRuns(b: string, t: string, m: nat)
    requires (forall i :: 0 <= i < |b| ==> b[i] in " \n") && m > 0 && ShortRuns(t, m)
    ensures ShortRuns(b + t, m)
  {
    hide ShortRuns;
    if b == "" {
      assert b + t == t;
    } else {
      BlankRuns(b[1..], t, m);
      assert b + t == [b[0]] + (b[1..] + t);
      SeparatorRuns(b[0], b[1..] + t, m);
    }
  }

  lemma OrdinaryEscapes(c: char)
    requires OrdinaryChar(c) && c !in "<>"
    ensures Entities.EscapeChar(c, Entities.SingleQuote) == [c]
  {
  }

  lemma {:induction false} OrdinaryStays(s: string)
    requires OrdinaryName(s) && forall i :: 0 <= i < |s| ==> s[i] !in "<>"
    ensures Entities.Escape(Entities.Decode(s), Entities.SingleQuote) == s
  {
    hide Entities.Decode, Entities.Escape, Entities.EscapeChar;
    if s == "" {
      Entities.EmptyTexts(Entities.SingleQuote);
    } else {
      OrdinaryStays(s[1..]);
      assert s == [s[0]] + s[1..];
      Entities.DecodeOfLiteral(s[0], s[1..]);
      EscapeOfMore(s[0], Entities.Decode(s[1..]));
      OrdinaryEscapes(s[0]);
    }
  }

  /** No identifier goes on behind a name. */
  lemma BehindName(name: string, t: string, i: nat, j: nat)
    requires name != "" && name[|name| - 1] != '-' && i < |name| < j <= |name + t|
    requires EndsIdent(t[0]) && t[0] != '\\'
    ensures !IdentLike((name + t)[i..j])
  {
    hide EndsIdent;
    var k := |name|;
    var run := (name + t)[i..j];
    assert run[k - i] == t[0] && run[k - i - 1] == name[k - 1];
  }

  /** An identifier that begins in a name ends with it. */
  lemma RunEndsName(name: string, t: string, i: int, j: int)
    requires name != "" && name[|name| - 1] != '-' && forall k :: 0 <= k < |name| ==> !EndsIdent(name[k])
    requires t != "" && EndsIdent(t[0]) && t[0] != '\\' && RunAt(name + t, i, j)
    ensures j >= |name| && (i < |name| ==> j == |name|)
  {
    hide EndsIdent, Marks, IdentLike;
    if i < |name| < j {
      BehindName(name, t, i, j);
    }
  }

  lemma OrdinaryPart(cfg: Config, name: string, i: nat)
    requires PlainOrdinary(cfg, name) && i <= |name|
    ensures Entities.Escape(Entities.Decode(name[i..]), Entities.SingleQuote) == name[i..]
  {
    hide Entities.Escape, Entities.Decode, Fold, OrdinaryChar;
    OrdinaryStays(name[i..]);
  }

  /** A name is short, or an equals sign stands behind it. */
  lemma NameRuns(cfg: Config, name: string, t: string, m: nat)
    requires PlainOrdinary(cfg, name) && t != "" && EndsIdent(t[0]) && t[0] != '\\'
    requires (|name| < m || t[0] == '=') && ShortRuns(t, m) && Marks(name + t) == Marks(t)
    ensures ShortRuns(name + t, m)
  {
    hide EndsIdent, Entities.Escape, Entities.Decode, Marks, IsMark, PlainOrdinary, OrdinaryChar;
    var u, k := name + t, |name|;
    NameIsFiller(cfg, name);
    forall i, j | RunAt(u, i, j)
      ensures u[j] == '=' || |Entities.Escape(Entities.Decode(u[i..j]), Entities.SingleQuote)| < m
    {
      RunEndsName(name, t, i, j);
      if i >= k {
        assert u[i..j] == t[i - k..j - k] && u[j..] == t[j - k..];
        assert RunAt(t, i - k, j - k);
      } else {
        assert u[i..j] == name[i..];
        OrdinaryPart(cfg, name, i);
      }
    }
  }
}
