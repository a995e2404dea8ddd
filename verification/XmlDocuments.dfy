/**
 The parser reads a written document as what it means (`XmlSyntax`), as long
 as every token fits the buffer and the tags are not nested too deeply.
 */
module XmlDocuments {
  import opened CText
  import opened XmlTree
  import opened L = XmlLexer
  import opened XmlBuilder
  import opened XmlMachine
  import opened XmlRoundTripLexing
  import opened XmlRoundTrip
  import opened XmlRoot
  import opened XmlSyntax
  import opened XmlSyntaxLexing
  import Entities

  // ----- white space

  predicate Skipping(state: ParserState) {
    state == AtComment || state == AtDoctype
  }

  predicate PassesBlanks(state: ParserState) {
    || state in {AtIdle, AtAttribute, AtAttributeEquals, AtString, AtQAttribute, AtQAttributeEquals, AtQString}
    || Skipping(state)
  }

  lemma BlankStays(cfg: Config, names: seq<string>, l: Level, t: Token)
    requires (t.kind == TEol || t.kind == TSepar) && PassesBlanks(l.state)
    ensures Act1(cfg, names, l, t) == Stay(l)
  {
  }

  function RunLength(b: string, state: State): (n: nat)
    ensures n <= |b|
    ensures forall i :: 0 <= i < n ==> Goes(b[i], state)
    ensures n < |b| ==> !Goes(b[n], state)
  {
    if b == "" || !Goes(b[0], state) then 0 else 1 + RunLength(b[1..], state)
  }

  lemma BlankIsNulFree(b: string)
    requires forall i :: 0 <= i < |b| ==> IsBlank(b[i])
    ensures NulFree(b)
  {
  }

  lemma BlankGoes(c: char)
    requires IsBlank(c)
    ensures Goes(c, BlankState(c))
  {
  }

  lemma ReadBlankRun(cfg: Config, b: string, x: string, inComment: bool, size: Size, below: seq<Level>, l: Level)
    requires b != "" && IsGap(b, size) && forall i :: 0 <= i < |b| ==> Goes(b[i], BlankState(b[0]))
    requires (x != "" ==> !Goes(x[0], BlankState(b[0]))) && PassesBlanks(l.state)
    ensures Reading(cfg, In(b + x, inComment, size), below, l) == Reading(cfg, In(x, inComment, size), below, l)
  {
    hide Lex, Act1, Names, IsBlank, Goes, Run, Tokens, PassesBlanks, TokenOf;
    LexBlankRun(b, x, inComment, size);
    var i := In(b + x, inComment, size);
    if x == "" {
      TokensStep(i);
    } else {
      BlankIsNulFree(b);
      var c := Call(BlankKind(BlankState(b[0])), b, In(x, inComment, size));
      TokenOfNulFree(c);
      BlankStays(cfg, Names(below), l, TokenOf(c));
      ReadStay(cfg, i, c, below, l, l);
    }
  }

  /** White space does nothing, in whatever order its line ends and blanks come. */
  lemma {:induction false} ReadGap(cfg: Config, b: string, x: string, inComment: bool, size: Size,
          below: seq<Level>, l: Level)
    requires IsGap(b, size) && (x != "" ==> !IsBlank(x[0])) && PassesBlanks(l.state)
    ensures Reading(cfg, In(b + x, inComment, size), below, l) == Reading(cfg, In(x, inComment, size), below, l)
    decreases |b|
  {
    hide Reading, IsBlank, PassesBlanks;
    if b == "" {
      assert b + x == x;
    } else {
      var n := RunLength(b, BlankState(b[0]));
      BlankGoes(b[0]);
      var run, rest := b[..n], b[n..];
      assert b + x == run + (rest + x);
      assert rest + x != "" ==> (rest + x)[0] == if rest == "" then x[0] else rest[0];
      assert run[0] == b[0];
      ReadBlankRun(cfg, run, rest + x, inComment, size, below, l);
      ReadGap(cfg, rest, x, inComment, size, below, l);
    }
  }

  // ----- names and attributes

  lemma NamesAreRead(n: string, size: Size)
    requires IsName(n, size)
    ensures n != "" && NameRest(n) && NulFree(n) && !IsBlank(n[0]) && n[0] !in "/!?"
  {
  }

  lemma ReadIdent(cfg: Config, n: string, x: string, size: Size, below: seq<Level>, l: Level, l': Level)
    requires IsName(n, size) && x != "" && EndsIdent(x[0])
    requires Act1(cfg, Names(below), l, Token(TIdent, n)) == Stay(l')
    ensures Reading(cfg, In(n + x, false, size), below, l) == Reading(cfg, In(x, false, size), below, l')
  {
    hide Reading, Lex, Act1, Names;
    NamesAreRead(n, size);
    LexName(n, x, size);
    var c := Call(TIdent, n, In(x, false, size));
    TokenOfNulFree(c);
    ReadStay(cfg, In(n + x, false, size), c, below, l, l');
  }

  /** The states of an ordinary tag and of one with question marks. */
  function NodeState(q: bool): ParserState {
    if q then AtQNode else AtNode
  }

  function AttrState(q: bool): ParserState {
    if q then AtQAttribute else AtAttribute
  }

  function EqualsState(q: bool): ParserState {
    if q then AtQAttributeEquals else AtAttributeEquals
  }

  function StringState(q: bool): ParserState {
    if q then AtQString else AtString
  }

  function MarkedName(cfg: Config, q: bool, name: string): string {
    if q then "?" + Fold(cfg, name) else Fold(cfg, name)
  }

  function Named(l: Level, q: bool, name: string): Level {
    l.(state := AttrState(q), name := name, props := [])
  }

  lemma IdentActs(cfg: Config, names: seq<string>, l: Level, n: string, q: bool)
    ensures l.state == NodeState(q) ==>
              Act1(cfg, names, l, Token(TIdent, n)) == Stay(Named(l, q, MarkedName(cfg, q, n)))
    ensures l.state == AttrState(q) ==>
              Act1(cfg, names, l, Token(TIdent, n)) == Stay(l.(state := EqualsState(q), attr := Fold(cfg, n)))
    ensures l.state == EqualsState(q) ==> Act1(cfg, names, l, Token(TEqual, "=")) == Stay(l.(state := StringState(q)))
  {
    hide Fold;
  }

  function ValueKind(v: Value): Kind {
    if v.Quoted? then TString else TIdent
  }

  function RawOf(v: Value): string {
    match v case Quoted(_, raw) => raw case Bare(word) => word
  }

  lemma ValueTaken(cfg: Config, names: seq<string>, l: Level, v: Value, q: bool)
    requires l.state == StringState(q)
    ensures Act1(cfg, names, l, Token(ValueKind(v), RawOf(v)))
         == Stay(l.(state := AttrState(q), props := l.props + [Prop(l.attr, Some(ValueOf(v)))]))
  {
    hide Entities.Decode;
  }

  lemma ReadAttrValue(cfg: Config, v: Value, x: string, size: Size, below: seq<Level>, l: Level, q: bool)
    requires IsValue(v, size) && l.state == StringState(q)
    requires v.Bare? ==> x != "" && EndsIdent(x[0])
    ensures Reading(cfg, In(ValueText(v, x), false, size), below, l)
         == Reading(cfg, In(x, false, size), below,
                l.(state := AttrState(q), props := l.props + [Prop(l.attr, Some(ValueOf(v)))]))
  {
    hide Reading, Lex, Act1, Names, ValueOf, IsName;
    var l' := l.(state := AttrState(q), props := l.props + [Prop(l.attr, Some(ValueOf(v)))]);
    ValueTaken(cfg, Names(below), l, v, q);
    match v
    case Quoted(quote, raw) =>
      LexQuoted(raw, quote, x, false, size);
      var c := Call(TString, raw, In(x, false, size));
      TokenOfNulFree(c);
      ReadStay(cfg, In(ValueText(v, x), false, size), c, below, l, l');
    case Bare(word) =>
      ReadIdent(cfg, word, x, size, below, l, l');
  }

  lemma ReadEqual(cfg: Config, x: string, size: Size, below: seq<Level>, l: Level, q: bool)
    requires l.state == EqualsState(q)
    ensures Reading(cfg, In("=" + x, false, size), below, l)
            == Reading(cfg, In(x, false, size), below, l.(state := StringState(q)))
  {
    hide Reading, Lex, Act1, Names;
    LexEqual(x, size);
    var c := Call(TEqual, "=", In(x, false, size));
    TokenOfNulFree(c);
    IdentActs(cfg, Names(below), l, "", q);
    ReadStay(cfg, In("=" + x, false, size), c, below, l, l.(state := StringState(q)));
  }

  lemma ValueBegins(v: Value, x: string, size: Size)
    requires IsValue(v, size)
    ensures ValueText(v, x) != "" && !IsBlank(ValueText(v, x)[0])
  {
    if v.Bare? {
      NamesAreRead(v.word, size);
    }
  }

  lemma BlankEnds(b: string, c: char, x: string)
    requires (forall i :: 0 <= i < |b| ==> IsBlank(b[i])) && (b == "" ==> EndsIdent(c))
    ensures var s := b + ([c] + x); s != "" && EndsIdent(s[0])
  {
  }

  lemma StatesPassBlanks(q: bool)
    ensures PassesBlanks(AttrState(q)) && PassesBlanks(EqualsState(q)) && PassesBlanks(StringState(q))
  {
  }

  function WithAttr(cfg: Config, l: Level, a: Attr): Level {
    l.(attr := Fold(cfg, a.name), props := l.props + [PropOf(cfg, a)])
  }

  lemma EqualEnds()
    ensures EndsIdent('=') && !IsBlank('=')
  {
  }

  lemma ReadAttr(cfg: Config, a: Attr, x: string, size: Size, below: seq<Level>, l: Level, q: bool)
    requires IsAttr(a, size) && l.state == AttrState(q)
    requires a.value.Bare? ==> x != "" && EndsIdent(x[0])
    ensures Reading(cfg, In(AttrText(a, x), false, size), below, l)
         == Reading(cfg, In(x, false, size), below, WithAttr(cfg, l, a))
  {
    hide Reading, Act1, Names, Fold, IsName, EndsIdent, IsBlank, PassesBlanks, IsValue, ValueOf, ValueText;
    var value := ValueText(a.value, x);
    var equal := a.left + ("=" + (a.right + value));
    var l1 := l.(state := EqualsState(q), attr := Fold(cfg, a.name));
    var l2 := l1.(state := StringState(q));
    StatesPassBlanks(q);
    NamesAreRead(a.name, size);
    assert (a.name + equal)[0] == a.name[0];
    ReadGap(cfg, a.gap, a.name + equal, false, size, below, l);
    EqualEnds();
    BlankEnds(a.left, '=', a.right + value);
    IdentActs(cfg, Names(below), l, a.name, q);
    ReadIdent(cfg, a.name, equal, size, below, l, l1);
    ReadGap(cfg, a.left, "=" + (a.right + value), false, size, below, l1);
    ReadEqual(cfg, a.right + value, size, below, l1, q);
    ValueBegins(a.value, x, size);
    ReadGap(cfg, a.right, value, false, size, below, l2);
    ReadAttrValue(cfg, a.value, x, size, below, l2, q);
  }

  /** What comes behind the attributes ends a name, and a bare value at their end. */
  predicate ReadyToEnd(attrs: seq<Attr>, x: string) {
    x != "" && (attrs == [] || attrs[|attrs| - 1].value.Bare? ==> EndsIdent(x[0]))
  }

  lemma GapEnds(b: string, x: string, size: Size)
    requires b != "" && IsGap(b, size)
    ensures b + x != "" && EndsIdent((b + x)[0])
  {
  }

  lemma AttrsBegin(attrs: seq<Attr>, x: string, size: Size)
    requires AreAttrs(attrs, size)
    ensures attrs == [] || AttrsText(attrs, x) != ""
    ensures attrs != [] ==> EndsIdent(AttrsText(attrs, x)[0])
    ensures attrs == [] ==> AttrsText(attrs, x) == x
  {
    hide EndsIdent, IsGap, IsName, IsValue;
    if attrs != [] {
      var a := attrs[0];
      GapEnds(a.gap, a.name + (a.left + ("=" + (a.right + ValueText(a.value, AttrsText(attrs[1..], x))))), size);
    }
  }

  lemma AttrsUnfold(attrs: seq<Attr>, x: string)
    requires attrs != []
    ensures AttrsText(attrs, x) == AttrText(attrs[0], AttrsText(attrs[1..], x))
  {
  }

  lemma PropKeepsName(cfg: Config, a: Attr)
    ensures PropOf(cfg, a).name == Fold(cfg, a.name)
  {
  }

  lemma {:induction false} ReadAttrs(cfg: Config, attrs: seq<Attr>, x: string, size: Size, below: seq<Level>,
          l: Level, q: bool)
    requires AreAttrs(attrs, size) && (attrs != [] ==> ReadyToEnd(attrs, x)) && l.state == AttrState(q)
    ensures Reading(cfg, In(AttrsText(attrs, x), false, size), below, l)
         == Reading(cfg, In(x, false, size), below, AfterProps(l, PropsOfAttrs(cfg, attrs)))
    decreases |attrs|
  {
    hide Reading, EndsIdent, IsAttr, AttrText, Fold, PropOf, AttrsText;
    AttrsBegin(attrs, x, size);
    var props := PropsOfAttrs(cfg, attrs);
    if attrs != [] {
      var rest := attrs[1..];
      AttrsUnfold(attrs, x);
      AttrsBegin(rest, x, size);
      ReadAttr(cfg, attrs[0], AttrsText(rest, x), size, below, l, q);
      ReadAttrs(cfg, rest, x, size, below, WithAttr(cfg, l, attrs[0]), q);
      assert PropsOfAttrs(cfg, rest) == props[1..];
      assert props[0] == PropOf(cfg, attrs[0]);
      PropKeepsName(cfg, attrs[0]);
    }
  }

  // ----- tags

  /** The level behind name and attributes. */
  function AfterHead(cfg: Config, l: Level, q: bool, name: string, attrs: seq<Attr>): Level {
    AfterProps(Named(l, q, MarkedName(cfg, q, name)), PropsOfAttrs(cfg, attrs))
  }

  lemma AfterHeadKeeps(cfg: Config, l: Level, q: bool, name: string, attrs: seq<Attr>)
    ensures var l' := AfterHead(cfg, l, q, name, attrs);
            && l'.state == AttrState(q) && l'.name == MarkedName(cfg, q, name) && l'.node == l.node
            && l'.props == PropsOfAttrs(cfg, attrs)
  {
    hide AfterProps, MarkedName;
    var props := PropsOfAttrs(cfg, attrs);
    AfterPropsKeeps(Named(l, q, MarkedName(cfg, q, name)), props);
    assert [] + props == props;
  }

  /** Name, attributes and white space up to the end mark. */
  lemma ReadHead(cfg: Config, name: string, attrs: seq<Attr>, tail: string, x: string, size: Size,
          below: seq<Level>, l: Level, q: bool)
    requires IsName(name, size) && AreAttrs(attrs, size) && IsGap(tail, size) && l.state == NodeState(q)
    requires x != "" && !IsBlank(x[0]) && ReadyToEnd(attrs, tail + x)
    ensures Reading(cfg, In(name + AttrsText(attrs, tail + x), false, size), below, l)
         == Reading(cfg, In(x, false, size), below, AfterHead(cfg, l, q, name, attrs))
  {
    hide Reading, EndsIdent, AreAttrs, AttrsText, Act1, Names, MarkedName, IsName, IsBlank, PassesBlanks, AfterProps;
    var l1 := Named(l, q, MarkedName(cfg, q, name));
    IdentActs(cfg, Names(below), l, name, q);
    AttrsBegin(attrs, tail + x, size);
    ReadIdent(cfg, name, AttrsText(attrs, tail + x), size, below, l, l1);
    ReadAttrs(cfg, attrs, tail + x, size, below, l1, q);
    AfterHeadKeeps(cfg, l, q, name, attrs);
    StatesPassBlanks(q);
    ReadGap(cfg, tail, x, false, size, below, AfterHead(cfg, l, q, name, attrs));
  }

  /** The level behind a whole element. */
  function AfterElement(l: Level, n: Node): Level
    requires n.Element?
  {
    Link(AfterTag(l, n), Content(n.data, n.child))
  }

  lemma {:induction false} StateIsKept(l: Level, props: seq<Prop>, state: ParserState)
    ensures AfterProps(l.(state := state), props) == AfterProps(l, props).(state := state)
    decreases |props|
  {
    if props != [] {
      StateIsKept(l.(attr := props[0].name, props := l.props + [props[0]]), props[1..], state);
    }
  }

  /** Whatever kind of tag the name and the attributes belong to. */
  lemma HeadIsTag(cfg: Config, l: Level, q: bool, name: string, attrs: seq<Attr>, content: Content)
    ensures var n := Element(MarkedName(cfg, q, name), content.data, PropsOfAttrs(cfg, attrs), content.child);
            Link(AfterHead(cfg, l.(state := NodeState(q)), q, name, attrs), content) == AfterElement(l, n)
  {
    hide MarkedName, AfterProps;
    var props := PropsOfAttrs(cfg, attrs);
    var l1 := Named(l, q, MarkedName(cfg, q, name));
    StateIsKept(l1, props, AtAttribute);
    AfterPropsKeeps(l1, props);
    AfterPropsKeeps(l1.(state := AtAttribute), props);
  }

  function Point(s: string, place: Place, size: Size): Input {
    Input(s, if place == InData then Data else Normal, false, size)
  }

  lemma EmptyDataActs(cfg: Config, names: seq<string>, l: Level)
    requires l.state == AtIdle
    ensures Act1(cfg, names, l, Token(TData, "")) == Stay(l)
  {
    Entities.EmptyTexts(Entities.NoQuote);
  }

  /** In front of a tag it makes no difference where it stands. */
  lemma EnterTag(cfg: Config, s: string, place: Place, size: Size, below: seq<Level>, l: Level)
    requires s != "" && s[0] == '<' && l.state == AtIdle
    ensures Reading(cfg, Point(s, place, size), below, l) == Reading(cfg, In(s, false, size), below, l)
  {
    hide Reading, Lex, Act1, Names;
    if place == InData {
      assert s == "" + ("<" + s[1..]);
      LexDataText("", s[1..], size);
      var c := Call(TData, "", In(s, false, size));
      TokenOfNulFree(c);
      EmptyDataActs(cfg, Names(below), l);
      ReadStay(cfg, Point(s, place, size), c, below, l, l);
    }
  }

  lemma EndMarkActs(cfg: Config, names: seq<string>, l: Level, q: bool)
    requires l.state == AttrState(q)
    ensures Act1(cfg, names, l, if q then Token(TTiStop, "?>") else Token(TMStop2, "/>")) == Stay(Link(l, EMPTY))
  {
    hide Link;
  }

  /** `/>` or `?>` */
  lemma ReadEndMark(cfg: Config, x: string, size: Size, below: seq<Level>, l: Level, q: bool)
    requires l.state == AttrState(q)
    ensures Reading(cfg, In((if q then "?>" else "/>") + x, false, size), below, l)
         == Reading(cfg, Point(x, InData, size), below, Link(l, EMPTY))
  {
    hide Reading, Lex, Act1, Names, Link;
    var first := if q then '?' else '/';
    var mark := if q then "?>" else "/>";
    assert mark == [first] + ">" && mark + x == [first] + (">" + x);
    LexEndMark(first, x, size);
    var c := Call(if q then TTiStop else TMStop2, mark, Point(x, InData, size));
    TokenOfNulFree(c);
    EndMarkActs(cfg, Names(below), l, q);
    ReadStay(cfg, In(mark + x, false, size), c, below, l, Link(l, EMPTY));
  }

  lemma TagStartActs(cfg: Config, names: seq<string>, l: Level, q: bool)
    requires l.state == AtIdle
    ensures Act1(cfg, names, l, if q then Token(TTiStart, "<?") else Token(TMStart1, "<"))
         == Stay(l.(state := NodeState(q)))
  {
  }

  lemma ReadTagMark(cfg: Config, x: string, size: Size, below: seq<Level>, l: Level, q: bool)
    requires l.state == AtIdle && x != "" && x[0] !in "/!?"
    ensures Reading(cfg, In((if q then "<?" else "<") + x, false, size), below, l)
         == Reading(cfg, In(x, false, size), below, l.(state := NodeState(q)))
  {
    hide Reading, Lex, Act1, Names;
    var mark := if q then "<?" else "<";
    if q {
      LexTiStart(x, size);
    } else {
      LexMStart1(x, size);
    }
    var c := Call(if q then TTiStart else TMStart1, mark, In(x, false, size));
    TokenOfNulFree(c);
    TagStartActs(cfg, Names(below), l, q);
    ReadStay(cfg, In(mark + x, false, size), c, below, l, l.(state := NodeState(q)));
  }

  lemma HeadReady(attrs: seq<Attr>, tail: string, end: string, size: Size, q: bool)
    requires IsGap(tail, size) && end != "" && end[0] == (if q then '?' else '/') && (q ==> EndsApart(attrs, tail))
    ensures !IsBlank(end[0]) && ReadyToEnd(attrs, tail + end)
  {
    if tail == "" {
      assert tail + end == end;
    }
  }

  /** A tag without content. */
  lemma ReadLeaf(cfg: Config, name: string, attrs: seq<Attr>, tail: string, x: string, size: Size,
          below: seq<Level>, l: Level, q: bool)
    requires IsName(name, size) && AreAttrs(attrs, size) && IsGap(tail, size) && l.state == AtIdle
    requires q ==> EndsApart(attrs, tail)
    ensures Reading(cfg, In((if q then "<?" else "<") +
                                (name + AttrsText(attrs, tail + ((if q then "?>" else "/>") + x))), false, size),
                below, l)
         == Reading(cfg, Point(x, InData, size), below,
                AfterElement(l, Element(MarkedName(cfg, q, name), None, PropsOfAttrs(cfg, attrs), [])))
  {
    hide Reading, AreAttrs, AttrsText, MarkedName, AfterProps, AfterElement, AfterHead;
    var end := (if q then "?>" else "/>") + x;
    var text := AttrsText(attrs, tail + end);
    var head := AfterHead(cfg, l.(state := NodeState(q)), q, name, attrs);
    NamesAreRead(name, size);
    assert (name + text)[0] == name[0];
    ReadTagMark(cfg, name + text, size, below, l, q);
    HeadReady(attrs, tail, end, size, q);
    ReadHead(cfg, name, attrs, tail, end, size, below, l.(state := NodeState(q)), q);
    AfterHeadKeeps(cfg, l.(state := NodeState(q)), q, name, attrs);
    ReadEndMark(cfg, x, size, below, head, q);
    HeadIsTag(cfg, l, q, name, attrs, EMPTY);
  }

  // ----- close tags

  lemma NothingLeft(mode: Mode, inComment: bool, size: Size)
    ensures Tokens(Input("", mode, inComment, size)) == []
  {
    hide Lex, Tokens;
    EndOfFileIsStable(Input("", mode, inComment, size));
    TokensStep(Input("", mode, inComment, size));
  }

  lemma CloseActs(cfg: Config, names: seq<string>, l: Level, close: string)
    requires names != [] && names[|names| - 1] == Fold(cfg, close) && l.state == AtNodeClose
    ensures Act1(cfg, names, l, Token(TIdent, close)) == Stay(l.(state := AtTagTerm, closing := Fold(cfg, close)))
  {
    hide Fold;
  }

  /** `>` at the end of the innermost tag, also at the end of the text. */
  lemma ReadLastMark(cfg: Config, x: string, size: Size, below: seq<Level>, opener: Level, l: Level)
    requires l.state == AtTagTerm && l.closing == opener.name
    ensures Reading(cfg, In(">" + x, false, size), below + [opener], l)
         == Reading(cfg, Point(x, InData, size), below, Link(opener, l.node))
  {
    hide Lex, Act1, Names, Run, Tokens;
    LexMStop1(x, size);
    var next := Ahead(x, if x == "" then Normal else Data, size);
    var c := Call(TMStop1, ">", next);
    TokenOfNulFree(c);
    StopActs(cfg, Names(below + [opener]), l, Token(TMStop1, ">"));
    ReadCall(cfg, In(">" + x, false, size), c, below + [opener], l);
    InnermostName(below, opener);
    assert CloseIndex(Names(below + [opener]), opener.name) == |below| + 1;
    CollapseOne(below, opener, l);
    NothingLeft(Normal, false, size);
    NothingLeft(Data, false, size);
  }

  lemma ReadCloseTag(cfg: Config, close: string, x: string, place: Place, size: Size, below: seq<Level>,
          opener: Level, l: Level)
    requires IsName(close, size) && opener.name == Fold(cfg, close) && l.state == AtIdle
    ensures Reading(cfg, Point("</" + (close + (">" + x)), place, size), below + [opener], l)
         == Reading(cfg, Point(x, InData, size), below, Link(opener, l.node))
  {
    hide Reading, Act1, Names, IsName, Fold;
    var s := "</" + (close + (">" + x));
    var l1, l2 := l.(state := AtNodeClose), l.(state := AtTagTerm, closing := Fold(cfg, close));
    EnterTag(cfg, s, place, size, below + [opener], l);
    ReadCloseStart(cfg, close + (">" + x), size, below + [opener], l);
    InnermostName(below, opener);
    CloseActs(cfg, Names(below + [opener]), l1, close);
    assert EndsIdent((">" + x)[0]);
    ReadIdent(cfg, close, ">" + x, size, below + [opener], l1, l2);
    ReadLastMark(cfg, x, size, below, opener, l2);
  }

  // ----- text

  function WithText(cfg: Config, l: Level, text: string): Level {
    l.(node := AppendText(l.node, text, cfg.multiText))
  }

  lemma CharsActs(cfg: Config, names: seq<string>, l: Level, raw: string)
    requires l.state == AtIdle
    ensures Act1(cfg, names, l, Token(TData, raw)) == Stay(WithText(cfg, l, Entities.Decode(raw)))
  {
    hide AppendText, Entities.Decode;
  }

  /** Character data is decoded. */
  lemma ReadChars(cfg: Config, raw: string, x: string, size: Size, below: seq<Level>, l: Level)
    requires '<' !in raw && NulFree(raw) && |raw| < size && l.state == AtIdle && x != "" && x[0] == '<'
    ensures Reading(cfg, Point(raw + x, InData, size), below, l)
         == Reading(cfg, In(x, false, size), below, WithText(cfg, l, Entities.Decode(raw)))
  {
    hide Reading, Lex, Act1, Names, WithText, Entities.Decode;
    assert x == "<" + x[1..];
    LexDataText(raw, x[1..], size);
    var c := Call(TData, raw, In(x, false, size));
    TokenOfNulFree(c);
    CharsActs(cfg, Names(below), l, raw);
    ReadStay(cfg, Point(raw + x, InData, size), c, below, l, WithText(cfg, l, Entities.Decode(raw)));
  }

  lemma SectionActs(cfg: Config, names: seq<string>, l: Level, raw: string)
    requires l.state == AtIdle
    ensures Act1(cfg, names, l, Token(TCdataStart, "<![CDATA[")) == Stay(l.(state := AtCdata))
    ensures Act1(cfg, names, l.(state := AtCdata), Token(TCdataStop, raw)) == Stay(WithText(cfg, l, raw))
  {
    hide AppendText;
  }

  /** A CDATA section is taken as it stands. */
  lemma ReadSection(cfg: Config, raw: string, x: string, size: Size, below: seq<Level>, l: Level)
    requires IsItem(cfg, Section(raw), size) && l.state == AtIdle
    ensures Reading(cfg, In("<![CDATA[" + (raw + ("]]>" + x)), false, size), below, l)
         == Reading(cfg, Point(x, InData, size), below, WithText(cfg, l, raw))
  {
    hide Reading, Lex, Act1, Names, WithText, OccursAt;
    var content := raw + ("]]>" + x);
    assert "<![CDATA[" + content == "<!" + ("[CDATA[" + content);
    LexDeclaration("[CDATA[", content, size);
    var c1 := Call(TCdataStart, "<![CDATA[", Input(content, Cdata, false, size));
    TokenOfNulFree(c1);
    SectionActs(cfg, Names(below), l, raw);
    ReadStay(cfg, In("<![CDATA[" + content, false, size), c1, below, l, l.(state := AtCdata));
    LexSection(raw, x, size);
    var c2 := Call(TCdataStop, raw, Point(x, InData, size));
    TokenOfNulFree(c2);
    ReadStay(cfg, c1.next, c2, below, l.(state := AtCdata), WithText(cfg, l, raw));
  }

  // ----- comments and document types

  lemma SkipActs(cfg: Config, names: seq<string>, l: Level, t: Token)
    requires Skipping(l.state) && (t.kind == TIdent || t.kind == TString)
    ensures Act1(cfg, names, l, t) == Stay(l)
  {
  }

  function EndMark(inComment: bool): string {
    if inComment then "-->" else ">"
  }

  lemma WordIsNoBlank(w: string)
    requires w != "" && IsWordChar(w[0])
    ensures !IsBlank(w[0])
  {
  }

  lemma BlanksEndNames()
    ensures EndsIdent(' ') && EndsIdent('\n') && EndsIdent('\r') && EndsIdent('\t') && EndsIdent('>')
  {
  }

  /** What follows a part, or the mark that ends them all. */
  lemma PartsBegin(parts: seq<Part>, inComment: bool, x: string, size: Size)
    requires AreParts(parts, size)
    ensures var s := PartsText(parts, EndMark(inComment) + x);
            && s != "" && (parts == [] || !parts[0].Space? ==> !IsBlank(s[0]))
            && (parts != [] && parts[0].Space? ==> EndsIdent(s[0]))
            && (parts == [] ==> s == EndMark(inComment) + x)
  {
    hide EndsIdent;
    assert EndsIdent(' ') && EndsIdent('\n') && EndsIdent('\r') && EndsIdent('\t') by { BlanksEndNames(); }
    if parts == [] {
      assert (EndMark(inComment) + x)[0] == EndMark(inComment)[0];
    } else if parts[0].Word? {
      WordIsNoBlank(parts[0].text);
    }
  }

  lemma ReadWord(cfg: Config, w: string, rest: seq<Part>, inComment: bool, x: string, size: Size, below: seq<Level>,
          l: Level)
    requires AreParts([Word(w)] + rest, size) && Skipping(l.state)
    ensures var s := PartsText(rest, EndMark(inComment) + x);
            Reading(cfg, In(w + s, inComment, size), below, l) == Reading(cfg, In(s, inComment, size), below, l)
  {
    hide Reading, Lex, Act1, Names, IsWordChar, EndsIdent, IsBlank;
    var parts := [Word(w)] + rest;
    assert parts[1..] == rest && (rest != [] ==> parts[1] == rest[0]);
    var s := PartsText(rest, EndMark(inComment) + x);
    PartsBegin(rest, inComment, x, size);
    if rest == [] && inComment {
      LexLastWord(w, x, size);
    } else {
      BlanksEndNames();
      assert rest == [] ==> s[0] == '>';
      LexWord(w, s, inComment, size);
    }
    var c := Call(TIdent, w, In(s, inComment, size));
    WordIsNulFree(w);
    TokenOfNulFree(c);
    SkipActs(cfg, Names(below), l, TokenOf(c));
    ReadStay(cfg, In(w + s, inComment, size), c, below, l, l);
  }

  lemma ReadLiteral(cfg: Config, quote: char, raw: string, s: string, inComment: bool, size: Size, below: seq<Level>,
          l: Level)
    requires IsLiteral(quote, raw, size) && Skipping(l.state)
    ensures Reading(cfg, In([quote] + (raw + ([quote] + s)), inComment, size), below, l)
         == Reading(cfg, In(s, inComment, size), below, l)
  {
    hide Reading, Lex, Act1, Names;
    LexQuoted(raw, quote, s, inComment, size);
    var c := Call(TString, raw, In(s, inComment, size));
    TokenOfNulFree(c);
    SkipActs(cfg, Names(below), l, TokenOf(c));
    ReadStay(cfg, In([quote] + (raw + ([quote] + s)), inComment, size), c, below, l, l);
  }

  lemma {:induction false} ReadParts(cfg: Config, parts: seq<Part>, inComment: bool, x: string, size: Size,
          below: seq<Level>, l: Level)
    requires AreParts(parts, size) && Skipping(l.state)
    ensures Reading(cfg, In(PartsText(parts, EndMark(inComment) + x), inComment, size), below, l)
         == Reading(cfg, In(EndMark(inComment) + x, inComment, size), below, l)
    decreases |parts|
  {
    hide Reading, IsWordChar, EndsIdent, IsLiteral, IsBlank, EndMark;
    if parts != [] {
      var rest := parts[1..];
      var s := PartsText(rest, EndMark(inComment) + x);
      PartsBegin(rest, inComment, x, size);
      assert parts == [parts[0]] + rest && (rest != [] ==> rest[0] == parts[1]);
      match parts[0] {
        case Word(text) => ReadWord(cfg, text, rest, inComment, x, size, below, l);
        case Space(blanks) => ReadGap(cfg, blanks, s, inComment, size, below, l);
        case Literal(quote, raw) => ReadLiteral(cfg, quote, raw, s, inComment, size, below, l);
      }
      ReadParts(cfg, rest, inComment, x, size, below, l);
    }
  }

  function SkipState(comment: bool): ParserState {
    if comment then AtComment else AtDoctype
  }

  lemma SkipEnds(cfg: Config, names: seq<string>, l: Level, comment: bool)
    requires l.state == AtIdle
    ensures Act1(cfg, names, l, if comment then Token(TCStart, "<!--") else Token(TDoctypeStart, "<!DOCTYPE"))
         == Stay(l.(state := SkipState(comment)))
    ensures Act1(cfg, names, l.(state := SkipState(comment)), if comment then Token(TCStop, "-->")
            else Token(TMStop1, ">"))
         == Stay(l)
  {
  }

  /** The end mark of a comment leads back between tags, that of a document type to character data. */
  lemma ReadSkipEnd(cfg: Config, comment: bool, x: string, size: Size, below: seq<Level>, l: Level)
    requires l.state == AtIdle
    ensures Reading(cfg, In(EndMark(comment) + x, comment, size), below, l.(state := SkipState(comment)))
         == Reading(cfg, Point(x, if comment then InMarkup else InData, size), below, l)
  {
    hide Lex, Act1, Names, Run, Tokens;
    SkipEnds(cfg, Names(below), l, comment);
    if comment {
      LexCommentEnd(x, size);
      var c := Call(TCStop, "-->", In(x, false, size));
      TokenOfNulFree(c);
      ReadStay(cfg, In("-->" + x, true, size), c, below, l.(state := AtComment), l);
    } else {
      LexMStop1(x, size);
      var c := Call(TMStop1, ">", Ahead(x, if x == "" then Normal else Data, size));
      TokenOfNulFree(c);
      ReadStay(cfg, In(">" + x, false, size), c, below, l.(state := AtDoctype), l);
      NothingLeft(Normal, false, size);
      NothingLeft(Data, false, size);
    }
  }

  lemma ReadSkipped(cfg: Config, parts: seq<Part>, comment: bool, x: string, size: Size, below: seq<Level>, l: Level)
    requires AreParts(parts, size) && l.state == AtIdle
    ensures Reading(cfg, In((if comment then "<!--" else "<!DOCTYPE") + PartsText(parts, EndMark(comment) + x), false,
                size), below, l)
         == Reading(cfg, Point(x, if comment then InMarkup else InData, size), below, l)
  {
    hide Reading, Lex, Act1, Names, AreParts, EndMark;
    var mark := if comment then "--" else "DOCTYPE";
    var s := PartsText(parts, EndMark(comment) + x);
    assert (if comment then "<!--" else "<!DOCTYPE") + s == "<!" + (mark + s);
    LexDeclaration(mark, s, size);
    var c := Call(if comment then TCStart else TDoctypeStart, "<!" + mark, In(s, comment, size));
    assert "<!" + mark == if comment then "<!--" else "<!DOCTYPE";
    TokenOfNulFree(c);
    SkipEnds(cfg, Names(below), l, comment);
    ReadStay(cfg, In("<!" + (mark + s), false, size), c, below, l, l.(state := SkipState(comment)));
    ReadParts(cfg, parts, comment, x, size, below, l.(state := SkipState(comment)));
    ReadSkipEnd(cfg, comment, x, size, below, l);
  }

  // ----- items

  /** The level behind a piece of content. */
  function AfterPiece(cfg: Config, l: Level, p: Piece): Level {
    match p
    case Words(text) => WithText(cfg, l, text)
    case Child(n) => if n.Element? then AfterElement(l, n) else l
  }

  function AfterPieces(cfg: Config, l: Level, ps: seq<Piece>): Level
    decreases |ps|
  {
    if ps == [] then l else AfterPieces(cfg, AfterPiece(cfg, l, ps[0]), ps[1..])
  }

  lemma {:induction false} AfterPiecesOfConcat(cfg: Config, l: Level, ps: seq<Piece>, qs: seq<Piece>)
    ensures AfterPieces(cfg, l, ps + qs) == AfterPieces(cfg, AfterPieces(cfg, l, ps), qs)
    decreases |ps|
  {
    hide AfterPiece;
    if ps == [] {
      assert ps + qs == qs;
    } else {
      assert (ps + qs)[1..] == ps[1..] + qs;
      AfterPiecesOfConcat(cfg, AfterPiece(cfg, l, ps[0]), ps[1..], qs);
    }
  }

  lemma AfterOnePiece(cfg: Config, l: Level, p: Piece)
    ensures AfterPieces(cfg, l, [p]) == AfterPiece(cfg, l, p) && AfterPieces(cfg, l, []) == l
  {
    hide AfterPiece;
    assert [p][1..] == [];
  }

  lemma AfterElementAppends(l: Level, n: Node)
    requires n.Element?
    ensures var l' := AfterElement(l, n); l'.state == AtIdle && l'.node == l.node.(child := l.node.child + [n])
  {
    hide AfterProps;
    AfterTagKeeps(l, n);
    AfterPropsKeeps(l.(state := AtAttribute, name := n.name, props := []), n.props);
    assert [] + n.props == n.props;
  }

  lemma {:induction false} OnlyElementsMeant(cfg: Config, items: seq<Item>)
    ensures OnlyElements(Meanings(cfg, items))
    decreases |items|
  {
    if items != [] {
      OnlyElementsMeant(cfg, items[1..]);
    }
  }

  /** The content gathered is what the pieces come to. */
  lemma {:induction false} AfterPiecesAdds(cfg: Config, l: Level, ps: seq<Piece>)
    requires OnlyElements(ps) && l.state == AtIdle
    ensures var l' := AfterPieces(cfg, l, ps); l'.state == AtIdle && l'.node == AddAll(l.node, ps, cfg.multiText)
    decreases |ps|
  {
    hide AppendText, AfterElement;
    if ps != [] {
      if ps[0].Child? {
        AfterElementAppends(l, ps[0].node);
      }
      AfterPiecesAdds(cfg, AfterPiece(cfg, l, ps[0]), ps[1..]);
    }
  }

  function PlaceAfter(items: seq<Item>, place: Place): Place {
    if items == [] then place else Behind(items[|items| - 1])
  }

  /** After text, and after white space between tags, there is a tag. */
  predicate Continues(place: Place, x: string) {
    place == BeforeTag ==> x != "" && x[0] == '<'
  }

  lemma ItemBegins(cfg: Config, i: Item, x: string, size: Size)
    requires IsTagLike(i)
    ensures ItemText(i, x) != "" && ItemText(i, x)[0] == '<'
  {
    hide AttrsText, PartsText, ItemsText;
  }

  lemma ItemsBegin(cfg: Config, items: seq<Item>, place: Place, x: string, size: Size)
    requires AreItems(cfg, items, place, size) && Continues(PlaceAfter(items, place), x)
    ensures Continues(place, ItemsText(items, x))
    ensures x != "" ==> ItemsText(items, x) != "" || (items != [] && !IsTagLike(items[0]))
  {
    hide IsItem, ItemText;
    if items != [] && IsTagLike(items[0]) {
      ItemBegins(cfg, items[0], ItemsText(items[1..], x), size);
    }
  }

  lemma ReadPlain(cfg: Config, i: Item, x: string, place: Place, size: Size, below: seq<Level>, l: Level)
    requires IsItem(cfg, i, size) && Fits(i, place) && !i.Tag? && Continues(Behind(i), x) && l.state == AtIdle
    ensures Reading(cfg, Point(ItemText(i, x), place, size), below, l)
         == Reading(cfg, Point(x, Behind(i), size), below, AfterPieces(cfg, l, Meaning(cfg, i)))
  {
    hide Reading, AttrsText, PartsText, AreAttrs, AreParts, IsName, IsGap, EndsApart, AfterElement, WithText,
         OccursAt, Entities.Decode, PropsOfAttrs, AfterPieces;
    var end := ItemText(i, x);
    if IsTagLike(i) {
      ItemBegins(cfg, i, x, size);
      EnterTag(cfg, end, place, size, below, l);
    }
    match i
    case Leaf(name, attrs, tail) =>
      ReadLeaf(cfg, name, attrs, tail, x, size, below, l, false);
      AfterOnePiece(cfg, l, Child(ElementOf(cfg, Fold(cfg, name), attrs, [])));
    case Question(name, attrs, tail) =>
      ReadLeaf(cfg, name, attrs, tail, x, size, below, l, true);
      AfterOnePiece(cfg, l, Child(ElementOf(cfg, "?" + Fold(cfg, name), attrs, [])));
    case Chars(raw) =>
      ReadChars(cfg, raw, x, size, below, l);
      AfterOnePiece(cfg, l, Words(Entities.Decode(raw)));
    case Section(raw) =>
      ReadSection(cfg, raw, x, size, below, l);
      AfterOnePiece(cfg, l, Words(raw));
    case Comment(parts) =>
      ReadSkipped(cfg, parts, true, x, size, below, l);
      AfterOnePiece(cfg, l, Words(""));
    case Doctype(parts) =>
      ReadSkipped(cfg, parts, false, x, size, below, l);
      AfterOnePiece(cfg, l, Words(""));
    case Gap(blanks) =>
      ReadGap(cfg, blanks, x, false, size, below, l);
      AfterOnePiece(cfg, l, Words(""));
  }

  /** A start tag up to its `>`. */
  lemma ReadTagHead(cfg: Config, name: string, attrs: seq<Attr>, tail: string, x: string, size: Size,
          below: seq<Level>, l: Level)
    requires IsName(name, size) && AreAttrs(attrs, size) && IsGap(tail, size) && l.state == AtIdle
    ensures Reading(cfg, In("<" + (name + AttrsText(attrs, tail + (">" + x))), false, size), below, l)
         == Reading(cfg, In(">" + x, false, size), below, AfterHead(cfg, l.(state := AtNode), false, name, attrs))
  {
    hide Reading, AreAttrs, AttrsText, AfterHead;
    var text := AttrsText(attrs, tail + (">" + x));
    NamesAreRead(name, size);
    assert (name + text)[0] == name[0];
    ReadTagMark(cfg, name + text, size, below, l, false);
    if tail == "" {
      assert tail + (">" + x) == ">" + x;
    }
    ReadHead(cfg, name, attrs, tail, ">" + x, size, below, l.(state := AtNode), false);
  }

  lemma {:induction false} ItemsTextEnds(items: seq<Item>, x: string)
    requires x != ""
    ensures ItemsText(items, x) != ""
    decreases |items|
  {
    hide AttrsText, PartsText;
    if items != [] {
      ItemsTextEnds(items[1..], x);
      if items[0].Tag? {
        assert ItemText(items[0], ItemsText(items[1..], x))[0] == '<';
      }
    }
  }

  /** What reading an item comes to: the level behind the pieces that it means. */
  lemma {:induction false} ReadItem(cfg: Config, i: Item, x: string, place: Place, size: Size, below: seq<Level>,
          l: Level)
    requires IsItem(cfg, i, size) && Fits(i, place) && Continues(Behind(i), x) && l.state == AtIdle
    requires |below| + 1 + ItemDepth(i) <= MAX_RECURSION
    ensures Reading(cfg, Point(ItemText(i, x), place, size), below, l)
         == Reading(cfg, Point(x, Behind(i), size), below, AfterPieces(cfg, l, Meaning(cfg, i)))
    decreases i, 1
  {
    hide Reading, AttrsText, AreAttrs, IsName, IsGap, AfterHead, AfterElement, PropsOfAttrs, DataOf, ChildrenOf,
         AfterPieces,
         AddAll, ReadyToEnd;
    if !i.Tag? {
      ReadPlain(cfg, i, x, place, size, below, l);
    } else {
      var closing := "</" + (i.close + (">" + x));
      var inner := ItemsText(i.items, closing);
      var ps := Meanings(cfg, i.items);
      var head := AfterHead(cfg, l.(state := AtNode), false, i.name, i.attrs);
      ItemBegins(cfg, i, x, size);
      EnterTag(cfg, ItemText(i, x), place, size, below, l);
      ReadTagHead(cfg, i.name, i.attrs, i.tail, inner, size, below, l);
      AfterHeadKeeps(cfg, l.(state := AtNode), false, i.name, i.attrs);
      ItemsTextEnds(i.items, closing);
      ParseOpen(cfg, inner, size, below, head);
      ReadItems(cfg, i.items, closing, InData, size, below + [head], FRESH);
      OnlyElementsMeant(cfg, i.items);
      AfterPiecesAdds(cfg, FRESH, ps);
      AddAllIsContent(ps, cfg.multiText);
      ReadCloseTag(cfg, i.close, x, PlaceAfter(i.items, InData), size, below, head, AfterPieces(cfg, FRESH, ps));
      HeadIsTag(cfg, l, false, i.name, i.attrs, ContentOf(ps, cfg.multiText));
      AfterOnePiece(cfg, l, Child(ElementOf(cfg, Fold(cfg, i.name), i.attrs, ps)));
    }
  }

  lemma MeaningOfOne(cfg: Config, i: Item)
    ensures Meanings(cfg, [i]) == Meaning(cfg, i)
  {
    hide Meaning;
    assert [i][1..] == [];
  }

  lemma {:induction false} ReadItems(cfg: Config, items: seq<Item>, x: string, place: Place, size: Size,
          below: seq<Level>, l: Level)
    requires AreItems(cfg, items, place, size) && Continues(PlaceAfter(items, place), x) && l.state == AtIdle
    requires |below| + 1 + ItemsDepth(items) <= MAX_RECURSION
    ensures Reading(cfg, Point(ItemsText(items, x), place, size), below, l)
         == Reading(cfg, Point(x, PlaceAfter(items, place), size), below, AfterPieces(cfg, l, Meanings(cfg, items)))
    decreases items, 0
  {
    hide Reading, IsItem, ItemText, Meaning, AfterPieces, AddAll;
    if items == [] {
      AfterOnePiece(cfg, l, Words(""));
    } else {
      var i, rest := items[0], items[1..];
      var here, there := Meaning(cfg, i), Meanings(cfg, rest);
      assert PlaceAfter(items, place) == PlaceAfter(rest, Behind(i));
      ItemsBegin(cfg, rest, Behind(i), x, size);
      ReadItem(cfg, i, ItemsText(rest, x), place, size, below, l);
      OnlyElementsMeant(cfg, [i]);
      MeaningOfOne(cfg, i);
      AfterPiecesAdds(cfg, l, here);
      ReadItems(cfg, rest, x, Behind(i), size, below, AfterPieces(cfg, l, here));
      AfterPiecesOfConcat(cfg, l, here, there);
    }
  }

  // ----- whole documents

  lemma {:induction false} NoTagNoToken(s: string, tok: string, size: Size)
    requires '<' !in s
    ensures match LexData(s, tok, false, size)
            case Full(rest) => |rest| <= |s| && '<' !in rest
            case Ended(l) => l.kind == TEof
    decreases |s|
  {
    if |tok| < size && s != "" {
      NoTagNoToken(s[1..], tok + [s[0]], size);
    }
  }

  /** Text behind the last tag is never returned. */
  lemma {:induction false} LastTextIsDropped(s: string, size: Size)
    requires '<' !in s
    ensures Lex(Input(s, Data, false, size)).kind == TEof
    decreases |s|
  {
    hide LexData;
    var i := Input(s, Data, false, size);
    NoTagNoToken(s, "", size);
    PassShrinks(i);
    match LexPass(i)
    case Full(rest) => LastTextIsDropped(rest, 2 * size);
    case Ended(l) =>
  }

  /** What may follow the last item. */
  predicate IsTrailing(place: Place, s: string) {
    match place
    case InData => '<' !in s
    case InMarkup => IsGap(s, TOKEN_SIZE)
    case BeforeTag => false
  }

  lemma ReadTrailing(cfg: Config, s: string, place: Place, l: Level)
    requires IsTrailing(place, s) && l.state == AtIdle
    ensures Reading(cfg, Point(s, place, TOKEN_SIZE), [], l) == Running([], l)
  {
    hide Tokens, Lex;
    if place == InData {
      LastTextIsDropped(s, TOKEN_SIZE);
      TokensStep(Point(s, place, TOKEN_SIZE));
    } else {
      assert s + "" == s;
      ReadGap(cfg, s, "", false, TOKEN_SIZE, [], l);
      NothingLeft(Normal, false, TOKEN_SIZE);
    }
  }

  /** A document whose tags the parser can follow. */
  predicate IsDocument(cfg: Config, items: seq<Item>, trailing: string) {
    && AreItems(cfg, items, InMarkup, TOKEN_SIZE) && ItemsDepth(items) <= 25
    && IsTrailing(PlaceAfter(items, InMarkup), trailing)
  }

  lemma ElementsOfText(text: string)
    ensures Elements(TextNode(text)) == []
  {
    if text != "" {
      assert [Text(text)][..0] == [];
    }
  }

  lemma {:induction false} ElementsOfConcat(a: seq<Node>, b: seq<Node>)
    ensures Elements(a + b) == Elements(a) + Elements(b)
    decreases |b|
  {
    if b == [] {
      assert a + b == a;
    } else {
      var n := |b| - 1;
      assert (a + b)[..|a| + n] == a + b[..n];
      ElementsOfConcat(a, b[..n]);
    }
  }

  lemma ElementsOfOne(n: Node)
    requires n.Element?
    ensures Elements([n]) == [n]
  {
    assert [n][..0] == [];
    assert Elements([n]) == Elements([]) + [n];
  }

  lemma {:induction false} MixedElements(ps: seq<Piece>, text: string)
    requires OnlyElements(ps)
    ensures Elements(Mixed(ps, text)) == Nodes(ps)
    decreases |ps|
  {
    hide Elements;
    if ps == [] {
      ElementsOfText(text);
    } else {
      match ps[0]
      case Words(more) => MixedElements(ps[1..], text + more);
      case Child(n) =>
        MixedElements(ps[1..], "");
        ElementsOfText(text);
        ElementsOfConcat(TextNode(text), [n] + Mixed(ps[1..], ""));
        ElementsOfConcat([n], Mixed(ps[1..], ""));
        ElementsOfOne(n);
        assert TextNode(text) + [n] + Mixed(ps[1..], "") == TextNode(text) + ([n] + Mixed(ps[1..], ""));
        assert [] + Nodes(ps) == Nodes(ps);
    }
  }

  lemma {:induction false} NodesFromFirstChild(ps: seq<Piece>)
    ensures Nodes(FromFirstChild(ps)) == Nodes(ps)
    ensures OnlyElements(ps) ==> OnlyElements(FromFirstChild(ps))
    decreases |ps|
  {
    if ps != [] && !ps[0].Child? {
      NodesFromFirstChild(ps[1..]);
    }
  }

  lemma {:induction false} NodesAreElements(ps: seq<Piece>)
    requires OnlyElements(ps)
    ensures Elements(Nodes(ps)) == Nodes(ps)
    decreases |ps|
  {
    hide Elements;
    if ps == [] {
      ElementsOfText("");
    } else {
      NodesAreElements(ps[1..]);
      if ps[0].Child? {
        ElementsOfConcat([ps[0].node], Nodes(ps[1..]));
        ElementsOfOne(ps[0].node);
      }
    }
  }

  lemma ElementsOfChildren(ps: seq<Piece>, multiText: bool)
    requires OnlyElements(ps)
    ensures Elements(ChildrenOf(ps, multiText)) == Nodes(ps)
  {
    hide Elements, Mixed, Nodes;
    NodesFromFirstChild(ps);
    if multiText {
      MixedElements(FromFirstChild(ps), "");
    } else {
      NodesAreElements(ps);
    }
  }

  lemma TrailingContinues(place: Place, s: string)
    requires IsTrailing(place, s)
    ensures Continues(place, s)
  {
  }

  /** The outcome, by the nodes at the top level. */
  lemma ParseIsRoot(cfg: Config, items: seq<Item>, trailing: string)
    requires IsDocument(cfg, items, trailing)
    ensures var nodes := Nodes(Meanings(cfg, items));
            ParseDocument(cfg, ItemsText(items, trailing))
            == if SingleRoot(nodes) then Success(Rotated(nodes)) else Failure
  {
    hide Run, Tokens, AreItems, ItemsText, Meanings, AfterPieces, AddAll, Elements, SingleRoot, Rotated, IsTrailing,
         ChildrenOf, DataOf;
    var text, ps := ItemsText(items, trailing), Meanings(cfg, items);
    var l := AfterPieces(cfg, FRESH, ps);
    ParseOfMachine(cfg, text);
    TrailingContinues(PlaceAfter(items, InMarkup), trailing);
    ReadItems(cfg, items, trailing, InMarkup, TOKEN_SIZE, [], FRESH);
    OnlyElementsMeant(cfg, items);
    AfterPiecesAdds(cfg, FRESH, ps);
    AddAllIsContent(ps, cfg.multiText);
    ReadTrailing(cfg, trailing, PlaceAfter(items, InMarkup), l);
    NothingToCollapse(l);
    ElementsOfChildren(ps, cfg.multiText);
  }

  // ----- by items

  predicate IsNodeItem(i: Item) {
    i.Tag? || i.Leaf? || i.Question?
  }

  /** The items at the top level that make nodes. */
  function NodeItems(items: seq<Item>): (ns: seq<Item>)
    ensures forall n <- ns :: IsNodeItem(n)
  {
    if items == [] then []
    else (if IsNodeItem(items[0]) then [items[0]] else []) + NodeItems(items[1..])
  }

  function NodeOf(cfg: Config, i: Item): Node
    requires IsNodeItem(i)
  {
    match i
    case Tag(name, attrs, _, items, _) => ElementOf(cfg, Fold(cfg, name), attrs, Meanings(cfg, items))
    case Leaf(name, attrs, _) => ElementOf(cfg, Fold(cfg, name), attrs, [])
    case Question(name, attrs, _) => ElementOf(cfg, "?" + Fold(cfg, name), attrs, [])
  }

  function NodesOf(cfg: Config, ns: seq<Item>): (nodes: seq<Node>)
    requires forall n <- ns :: IsNodeItem(n)
    ensures |nodes| == |ns|
  {
    seq(|ns|, k requires 0 <= k < |ns| => NodeOf(cfg, ns[k]))
  }

  lemma NodeMeant(cfg: Config, i: Item)
    ensures Nodes(Meaning(cfg, i)) == NodesOf(cfg, if IsNodeItem(i) then [i] else [])
  {
    hide DataOf, ChildrenOf, PropsOfAttrs, Fold, Meanings;
  }

  lemma {:induction false} NodesOfConcat(ps: seq<Piece>, qs: seq<Piece>)
    ensures Nodes(ps + qs) == Nodes(ps) + Nodes(qs)
    decreases |ps|
  {
    if ps == [] {
      assert ps + qs == qs;
    } else {
      assert (ps + qs)[1..] == ps[1..] + qs;
      NodesOfConcat(ps[1..], qs);
    }
  }

  lemma NodesOfMore(cfg: Config, ns: seq<Item>, more: seq<Item>)
    requires (forall n <- ns :: IsNodeItem(n)) && forall n <- more :: IsNodeItem(n)
    ensures NodesOf(cfg, ns + more) == NodesOf(cfg, ns) + NodesOf(cfg, more)
    ensures NodesOf(cfg, []) == []
  {
    hide NodeOf;
  }

  lemma {:induction false} NodesMeant(cfg: Config, items: seq<Item>)
    ensures Nodes(Meanings(cfg, items)) == NodesOf(cfg, NodeItems(items))
    decreases |items|
  {
    hide Meaning, NodeOf, NodesOf;
    if items == [] {
      assert NodesOf(cfg, []) == [] by { NodesOfMore(cfg, [], []); }
    } else {
      var front := if IsNodeItem(items[0]) then [items[0]] else [];
      NodesMeant(cfg, items[1..]);
      NodesOfConcat(Meaning(cfg, items[0]), Meanings(cfg, items[1..]));
      NodeMeant(cfg, items[0]);
      NodesOfMore(cfg, front, NodeItems(items[1..]));
    }
  }

  lemma QuestionsAreQuestions(cfg: Config, i: Item, size: Size)
    requires IsNodeItem(i) && IsItem(cfg, i, size)
    ensures IsQuestion(NodeOf(cfg, i)) <==> i.Question?
  {
    hide DataOf, ChildrenOf, PropsOfAttrs, AreItems, AreAttrs;
    if i.Tag? {
      NamesAreRead(i.name, size);
    } else if i.Leaf? {
      NamesAreRead(i.name, size);
    }
  }

  lemma {:induction false} NodeItemsAreItems(cfg: Config, items: seq<Item>, place: Place, size: Size)
    requires AreItems(cfg, items, place, size)
    ensures forall n <- NodeItems(items) :: IsItem(cfg, n, size)
    decreases |items|
  {
    hide IsItem;
    if items != [] {
      NodeItemsAreItems(cfg, items[1..], Behind(items[0]), size);
    }
  }

  predicate HasSingleRoot(ns: seq<Item>) {
    && ns != [] && !ns[|ns| - 1].Question?
    && forall k :: 0 <= k < |ns| - 1 ==> ns[k].Question?
  }

  /**
   A written document is read as what it means: its only element, and behind it
   the `<? ?>` nodes in front of it, in their order; a document with more than
   one element, with none, or with `<? ?>` nodes behind it is a failure.
   */
  lemma DocumentIsRead(cfg: Config, items: seq<Item>, trailing: string)
    requires IsDocument(cfg, items, trailing)
    ensures var ns := NodeItems(items);
            ParseDocument(cfg, ItemsText(items, trailing)) ==
            if HasSingleRoot(ns) then
              Success([NodeOf(cfg, ns[|ns| - 1])] + NodesOf(cfg, ns[..|ns| - 1]))
            else Failure
  {
    hide ParseDocument, ItemsText, AreItems, NodeOf, IsItem, IsQuestion, Meanings;
    var ns := NodeItems(items);
    ParseIsRoot(cfg, items, trailing);
    NodesMeant(cfg, items);
    NodeItemsAreItems(cfg, items, InMarkup, TOKEN_SIZE);
    forall k | 0 <= k < |ns|
      ensures IsQuestion(NodesOf(cfg, ns)[k]) <==> ns[k].Question?
    {
      QuestionsAreQuestions(cfg, ns[k], TOKEN_SIZE);
    }
    if HasSingleRoot(ns) {
      assert NodesOf(cfg, ns[..|ns| - 1]) == NodesOf(cfg, ns)[..|ns| - 1];
    }
  }
}
