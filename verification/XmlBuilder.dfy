/**
 The recursive tree builder (plparse/xmlparser.c:181-671), read as a function
 of the token stream.  `GetNode` is the recursion with its return codes,
 where -(1 + n) says that n close tags were missing; `XmlMachine` gives the
 explicit-stack machine it is compared with.
 */
module XmlBuilder {
  import opened CText
  import opened XmlTree
  import opened L = XmlLexer
  import Entities

  const MAX_RECURSION := 26

  datatype Config = Config(caseInsensitive: bool, relaxed: bool, multiText: bool)

  datatype ParserState =
    | AtIdle | AtNode | AtAttribute | AtNodeClose | AtTagTerm | AtAttributeEquals | AtString | AtTagTermIgnore
    | AtQNode | AtQAttribute | AtQAttributeEquals | AtQString | AtComment | AtDoctype | AtCdata

  /**
   The local variables of one activation: the state, the name and properties
   of the tag being read, the name of the close tag being read, and the
   content gathered for the activation's own node.
   */
  datatype Level = Level(state: ParserState, name: string, attr: string, props: seq<Prop>, closing: string,
      node: Content)

  const FRESH := Level(AtIdle, "", "", [], "", EMPTY)

  /**
   What a token does to an activation: `Open` starts another one, `Return` and
   `End` (at the end of file) finish this one.
   */
  datatype Act = Stay(level: Level) | Open(level: Level) | Return(level: Level) | End(level: Level) | Fail

  function Fold(cfg: Config, s: string): string {
    if cfg.caseInsensitive then Upper(s) else s
  }

  /** The node that an activation's tag makes, with the given content. */
  function Tagged(l: Level, content: Content): Node {
    Element(l.name, content.data, l.props, content.child)
  }

  /** The finished subtree joins the list of children. */
  function Link(l: Level, content: Content): Level {
    l.(state := AtIdle, node := l.node.(child := l.node.child + [Tagged(l, content)]))
  }

  function IdleAct(cfg: Config, l: Level, t: Token): Act {
    match t.kind
    case TEol | TSepar => Stay(l)
    case TEof => End(l)
    case TMStart1 => Stay(l.(state := AtNode))
    case TMStart2 => Stay(l.(state := AtNodeClose))
    case TCStart => Stay(l.(state := AtComment))
    case TTiStart => Stay(l.(state := AtQNode))
    case TDoctypeStart => Stay(l.(state := AtDoctype))
    case TCdataStart => Stay(l.(state := AtCdata))
    case TData => Stay(l.(node := AppendText(l.node, Entities.Decode(t.text), cfg.multiText)))
    case _ => Fail
  }

  function NodeAct(cfg: Config, l: Level, t: Token): Act {
    if t.kind != TIdent then Fail
    else if l.state == AtQNode then Stay(l.(state := AtQAttribute, name := "?" + Fold(cfg, t.text), props := []))
    else Stay(l.(state := AtAttribute, name := Fold(cfg, t.text), props := []))
  }

  function AttributeAct(cfg: Config, l: Level, t: Token): Act {
    match t.kind
    case TEol | TSepar => Stay(l)
    case TMStop1 => Open(l)
    case TMStop2 => Stay(Link(l, EMPTY))
    case TIdent => Stay(l.(state := AtAttributeEquals, attr := Fold(cfg, t.text)))
    case _ => Fail
  }

  function QAttributeAct(cfg: Config, l: Level, t: Token): Act {
    match t.kind
    case TEol | TSepar => Stay(l)
    case TTiStop => Stay(Link(l, EMPTY))
    case TIdent => Stay(l.(state := AtQAttributeEquals, attr := Fold(cfg, t.text)))
    case _ => Fail
  }

  /** A token that does not belong to the attribute is handed on: the bypass flag of the C loop. */
  function EqualsAct(cfg: Config, l: Level, t: Token): Act {
    match t.kind
    case TEol | TSepar => Stay(l)
    case TEqual => Stay(l.(state := AtString))
    case TIdent => AttributeAct(cfg, l.(state := AtAttribute), t)
    case TMStop1 => AttributeAct(cfg, l.(state := AtAttribute, props := l.props + [Prop(l.attr, None)]), t)
    case _ => Fail
  }

  function QEqualsAct(cfg: Config, l: Level, t: Token): Act {
    match t.kind
    case TEol | TSepar => Stay(l)
    case TEqual => Stay(l.(state := AtQString))
    case TIdent => QAttributeAct(cfg, l.(state := AtQAttribute), t)
    case TTiStop => QAttributeAct(cfg, l.(state := AtQAttribute, props := l.props + [Prop(l.attr, None)]), t)
    case _ => Fail
  }

  function StringAct(l: Level, t: Token): Act {
    match t.kind
    case TEol | TSepar => Stay(l)
    case TString | TIdent =>
      Stay(l.(state := if l.state == AtQString then AtQAttribute else AtAttribute,
              props := l.props + [Prop(l.attr, Some(Entities.Decode(t.text)))]))
    case _ => Fail
  }

  /** The innermost open tag of that name, as an index into the names of all open tags. */
  function Nearest(names: seq<string>, name: string): (r: Option<nat>)
    ensures r.Some? ==> r.value < |names| && names[r.value] == name
    ensures r.Some? ==> forall i :: r.value < i < |names| ==> names[i] != name
    ensures r.None? ==> name !in names
  {
    if names == [] then None
    else if names[|names| - 1] == name then Some(|names| - 1)
    else Nearest(names[..|names| - 1], name)
  }

  function CloseAct(cfg: Config, names: seq<string>, l: Level, t: Token): Act {
    if t.kind != TIdent then Fail
    else
      var name := Fold(cfg, t.text);
      match Nearest(names, name)
      case Some(r) =>
        if r + 1 == |names| || cfg.relaxed then Stay(l.(state := AtTagTerm, closing := name)) else Fail
      case None => if cfg.relaxed then Stay(l.(state := AtTagTermIgnore)) else Fail
  }

  /** The states that wait for one closing token. */
  function SkipAct(cfg: Config, l: Level, t: Token): Act {
    match l.state
    case AtTagTerm => if t.kind == TMStop1 then Return(l) else Fail
    case AtTagTermIgnore => if t.kind == TMStop1 then Stay(l.(state := AtIdle)) else Fail
    case AtComment => if t.kind == TCStop then Stay(l.(state := AtIdle)) else Stay(l)
    case AtDoctype => if t.kind == TMStop1 then Stay(l.(state := AtIdle)) else Stay(l)
    case _ =>
      if t.kind == TCdataStop then Stay(l.(state := AtIdle, node := AppendText(l.node, t.text, cfg.multiText)))
      else Fail
  }

  function Act1(cfg: Config, names: seq<string>, l: Level, t: Token): Act {
    match l.state
    case AtIdle => IdleAct(cfg, l, t)
    case AtNode | AtQNode => NodeAct(cfg, l, t)
    case AtAttribute => AttributeAct(cfg, l, t)
    case AtQAttribute => QAttributeAct(cfg, l, t)
    case AtAttributeEquals => EqualsAct(cfg, l, t)
    case AtQAttributeEquals => QEqualsAct(cfg, l, t)
    case AtString | AtQString => StringAct(l, t)
    case AtNodeClose => CloseAct(cfg, names, l, t)
    case _ => SkipAct(cfg, l, t)
  }

  /** The open tag that a recognised close tag names. */
  function CloseIndex(names: seq<string>, name: string): (k: nat)
    requires names != []
    ensures k < |names|
  {
    Nearest(names, name).GetOr(|names| - 1)
  }

  /**
   The return code for closing tag `k` of `n`: 0 for the activation's own tag,
   -(1 + skipped tags) for an outer one.
   */
  function CloseCode(n: nat, k: nat): int
    requires k < n
  {
    if k + 1 == n then 0 else k - n
  }

  /** How far an activation comes with the given tokens: it may need more of them. */
  datatype Result = Unfinished | Done(code: int, rest: seq<Token>, node: Content)

  /** `parse_res + 1 + (parse_res == -2)`: one level closer to the tag that was named. */
  function UnwindCode(code: int): int {
    code + 1 + if code == -2 then 1 else 0
  }

  /**
   `xml_parser_get_node_internal` from the middle of its loop, for as many
   tokens as the lexer has returned so far, the end of file among them.  `names`
   are the open tags from the outermost (always "") to the activation's own.
   */
  function GetNode(cfg: Config, ts: seq<Token>, names: seq<string>, l: Level): (r: Result)
    requires names != []
    ensures r.Done? ==> |r.rest| <= |ts|
    decreases |ts|
  {
    if |names| > MAX_RECURSION then Done(-1, ts, l.node)
    else if ts == [] then Unfinished
    else if ts[0].kind == TError then Done(-1, ts[1..], l.node)
    else
      match Act1(cfg, names, l, ts[0])
      case Fail => Done(-1, ts[1..], l.node)
      case Return(l') => Done(CloseCode(|names|, CloseIndex(names, l'.closing)), ts[1..], l'.node)
      case End(l') => Done(0, ts[1..], l'.node)
      case Stay(l') => GetNode(cfg, ts[1..], names, l')
      case Open(l') =>
        match GetNode(cfg, ts[1..], names + [l'.name], FRESH)
        case Unfinished => Unfinished
        case Done(code, rest, content) =>
          if code == -1 || code > 0 then Done(code, rest, l'.node)
          else if code < -1 then Done(UnwindCode(code), rest, Link(l', content).node)
          else GetNode(cfg, rest, names, Link(l', content))
  }

  /** What an activation goes on to return once the subtree it opened has ended with `r`. */
  function AfterSubtree(cfg: Config, names: seq<string>, l: Level, r: Result): Result
    requires names != []
  {
    if r.Unfinished? then Unfinished
    else if r.code == -1 || r.code > 0 then Done(r.code, r.rest, l.node)
    else if r.code < -1 then Done(UnwindCode(r.code), r.rest, Link(l, r.node).node)
    else GetNode(cfg, r.rest, names, Link(l, r.node))
  }

  /** One round of the loop, before the tokens `ts`. */
  function AfterToken(cfg: Config, ts: seq<Token>, names: seq<string>, l: Level, act: Act): Result
    requires names != []
  {
    match act
    case Fail => Done(-1, ts, l.node)
    case Return(l') => Done(CloseCode(|names|, CloseIndex(names, l'.closing)), ts, l'.node)
    case End(l') => Done(0, ts, l'.node)
    case Stay(l') => GetNode(cfg, ts, names, l')
    case Open(l') => AfterSubtree(cfg, names, l', GetNode(cfg, ts, names + [l'.name], FRESH))
  }

  lemma GetNodeStep(cfg: Config, t: Token, ts: seq<Token>, names: seq<string>, l: Level)
    requires names != [] && |names| <= MAX_RECURSION && t.kind != TError
    ensures GetNode(cfg, [t] + ts, names, l) == AfterToken(cfg, ts, names, l, Act1(cfg, names, l, t))
  {
    hide Act1, CloseCode, CloseIndex, Link, UnwindCode;
    assert ([t] + ts)[1..] == ts;
  }

  /** The tokens that the loop itself deals with. */
  lemma StopActs(cfg: Config, names: seq<string>, l: Level, t: Token)
    requires names != []
    ensures l.state == AtTagTerm && t.kind == TMStop1 ==> Act1(cfg, names, l, t) == Return(l)
    ensures l.state == AtAttribute && t.kind == TMStop1 ==> Act1(cfg, names, l, t) == Open(l)
    ensures l.state == AtIdle && t.kind == TEof ==> Act1(cfg, names, l, t) == End(l)
  {
  }

  lemma GetNodeEnds(cfg: Config, ts: seq<Token>, names: seq<string>, l: Level)
    requires names != []
    ensures |names| > MAX_RECURSION ==> GetNode(cfg, ts, names, l) == Done(-1, ts, l.node)
    ensures |names| <= MAX_RECURSION && ts == [] ==> GetNode(cfg, ts, names, l) == Unfinished
    ensures |names| <= MAX_RECURSION && ts != [] && ts[0].kind == TError ==>
              GetNode(cfg, ts, names, l) == Done(-1, ts[1..], l.node)
  {
  }
}
