/**
 A parse of a printed tree that has lost a token to a full buffer never comes
 back to the tree.  From then on it either has gathered something else, or has
 gathered less than the marks it has passed stand for, and that stays so.
 */
module XmlOverflow {
  import opened CText
  import opened XmlTree
  import opened L = XmlLexer
  import opened XmlBuilder
  import opened XmlMachine
  import opened XmlRoundTripLexing
  import opened XmlRoundTrip
  import opened XmlMarks
  import opened XmlAtoms
  import Entities

  // ----- what a printed text has left for its atoms

  function ValueCount(c: char, a: Atom): nat {
    if a.Attr? && a.value.Some? then Count(c, a.value.value) else 0
  }

  /** How often `c` stands in the text of some atoms; every property has an equals sign of its own. */
  function TextCount(c: char, atoms: seq<Atom>): nat {
    if atoms == [] then 0
    else ValueCount(c, atoms[0]) + (if c == '=' && atoms[0].Attr? then 1 else 0) + TextCount(c, atoms[1..])
  }

  /**
   What is left of a text holds the texts of the atoms whose marks are left,
   and at most the value of the one before.
   */
  predicate Balanced(c: char, t: string, atoms: seq<Atom>)
    requires Marks(t) <= |atoms|
  {
    var p := |atoms| - Marks(t);
    && TextCount(c, atoms[p..]) <= Count(c, t)
    && (p > 0 ==> Count(c, t) <= ValueCount(c, atoms[p - 1]) + TextCount(c, atoms[p..]))
  }

  predicate FairAt(t: string, atoms: seq<Atom>) {
    Marks(t) <= |atoms| && Balanced('=', t, atoms) && Balanced('\"', t, atoms)
  }

  predicate Fair(t: string, atoms: seq<Atom>) {
    FairAt(t, atoms) && (t != "" ==> Fair(t[1..], atoms))
  }

  lemma {:induction false} FairSuffix(s: string, t: string, atoms: seq<Atom>)
    requires IsSuffix(s, t) && Fair(t, atoms)
    ensures Fair(s, atoms)
    decreases |t|
  {
    hide FairAt;
    if |s| == |t| {
      assert s == t;
    } else {
      assert s == t[1..][|t[1..]| - |s|..];
      FairSuffix(s, t[1..], atoms);
    }
  }

  predicate AllGiven(atoms: seq<Atom>) {
    forall i :: 0 <= i < |atoms| && atoms[i].Attr? ==> atoms[i].value.Some?
  }

  function EscapedLength(a: Atom): nat {
    if a.Attr? && a.value.Some? then |Entities.Escape(a.value.value, Entities.SingleQuote)| else 0
  }

  // ----- parses that have lost something

  ghost predicate Deviates(s: seq<Atom>, atoms: seq<Atom>) {
    exists i :: 0 <= i < |s| && i < |atoms| && s[i] != atoms[i]
  }

  /** The characters `i` to `j` could be an identifier, and no mark is in front of its end. */
  predicate RunAt(t: string, i: int, j: int) {
    0 <= i <= j < |t| && EndsIdent(t[j]) && IdentLike(t[i..j]) && Marks(t[j..]) == Marks(t)
  }

  /**
   Up to the next mark no identifier has `m` characters once it is decoded and
   escaped, unless an equals sign follows.
   */
  ghost predicate ShortRuns(t: string, m: nat) {
    forall i, j :: RunAt(t, i, j) ==>
      t[j] == '=' || |Entities.Escape(Entities.Decode(t[i..j]), Entities.SingleQuote)| < m
  }

  /** A value taken from here, in front of the next mark, is not the one that the atom behind `n` others has. */
  ghost predicate WrongValue(atoms: seq<Atom>, t: string, n: nat, attr: string)
    requires n < |atoms|
  {
    var a := atoms[n];
    || !(a.Attr? && a.name == attr)
    || Count('=', t) < ValueCount('=', a) + TextCount('=', atoms[n + 1..])
    || (!OpensValue(t) && ShortRuns(t, EscapedLength(a)))
  }

  /** `n` atoms are fewer than the marks passed stand for, so far that one more does not make up for it. */
  ghost predicate Short(atoms: seq<Atom>, t: string, n: nat, state: ParserState, attr: string) {
    && n + 1 + Marks(t) <= |atoms|
    && (state == AtNode ==> n + 2 + Marks(t) <= |atoms|)
    && (state == AtString ==> n + 2 + Marks(t) <= |atoms| || WrongValue(atoms, t, n, attr))
  }

  /** The next token is an error in the middle of a tag. */
  ghost predicate Doomed(atoms: seq<Atom>, i: Input, n: nat, state: ParserState) {
    state == AtAttribute && n <= |atoms| && (i.text == "" || (i.mode == Normal && i.text[0] == '='))
  }

  ghost predicate Lost(atoms: seq<Atom>, i: Input, below: seq<Level>, top: Level) {
    var s := StackAtoms(below, top);
    Deviates(s, atoms) || Doomed(atoms, i, |s|, top.state) || Short(atoms, i.text, |s|, top.state, top.attr)
  }

  // ----- a value taken in front of the next mark is wrong

  function LexedOf(c: Call): Lexed {
    Lexed(c.kind, c.raw, c.next.text, c.next.mode, c.next.inComment)
  }

  /** The call took the token `c` from `t`, beginning at its suffix `u`. */
  ghost predicate Took(t: string, u: string, c: Call) {
    Tame(t) && IsSuffix(u, t) && Shape(u, LexedOf(c)) && c.kind in {TString, TIdent}
  }

  lemma IdentText(u: string, raw: string, rest: string)
    requires Tame(u) && u == raw + rest && rest != "" && EndsIdent(rest[0])
    ensures AmpOk(raw) && NulFree(raw)
  {
    hide EndsIdent, Tame, AmpOk;
    TameNulFree(u);
    assert u[..|raw|] == raw && u[|raw|] == rest[0];
    TakenAmpOk(u, |raw|);
  }

  lemma QuoteEndsIdent(q: char)
    requires q == '\'' || q == '\"'
    ensures EndsIdent(q) || q == '\''
  {
  }

  lemma StringText(u: string, raw: string, rest: string)
    requires Tame(u) && StringShape(u, raw, rest)
    ensures AmpOk(raw) && NulFree(raw)
  {
    hide EndsIdent, Tame, AmpOk;
    TameNulFree(u);
    SuffixOf(u[1..], u);
    assert u[1..][..|raw|] == raw;
    QuoteEndsIdent(u[0]);
    TakenAmpOk(u[1..], |raw|);
  }

  lemma TakenText(t: string, u: string, c: Call)
    requires Took(t, u, c)
    ensures TokenOf(c).text == c.raw && AmpOk(c.raw) && IsSuffix(c.next.text, u)
    ensures Tame(u) && Marks(c.next.text) <= Marks(u) <= Marks(t)
  {
    hide IdentLike, EndsIdent, Tame, AmpOk, Marks, StringShape;
    SuffixOf(u, t);
    SuffixOf(c.next.text, u);
    if c.kind == TIdent {
      IdentText(u, c.raw, c.next.text);
    } else {
      StringText(u, c.raw, c.next.text);
    }
    StrLenOfNulFree(c.raw);
  }

  lemma QuotesCount(e: char, q: char, raw: string, rest: string)
    ensures Count(e, [q] + (raw + ([q] + rest))) == (if e == q then 2 else 0) + Count(e, raw) + Count(e, rest)
    ensures Count(e, [q] + raw) == (if e == q then 1 else 0) + Count(e, raw)
  {
    CountConcat(e, raw, [q] + rest);
    CountConcat(e, [q], rest);
    CountConcat(e, [q], raw + ([q] + rest));
    CountConcat(e, [q], raw);
    assert Count(e, [q]) == if e == q then 1 else 0;
  }

  lemma NoneCounted(e: char)
    ensures Count(e, "") == 0
  {
  }

  lemma StringCount(e: char, u: string, raw: string, rest: string)
    requires StringShape(u, raw, rest)
    ensures Count(e, raw) + Count(e, rest) + (if e == u[0] && rest != "" then 2 else 0) <= Count(e, u)
  {
    QuotesCount(e, u[0], raw, rest);
    NoneCounted(e);
    hide Count;
  }

  lemma TakenCount(e: char, t: string, u: string, c: Call)
    requires Took(t, u, c)
    ensures Count(e, c.raw) + Count(e, c.next.text) <= Count(e, u) <= Count(e, t)
  {
    hide IdentLike, EndsIdent, Tame, StringShape;
    SuffixCounts(e, u, t);
    if c.kind == TIdent {
      CountConcat(e, c.raw, c.next.text);
    } else {
      StringCount(e, u, c.raw, c.next.text);
    }
  }

  lemma TookSuffix(t: string, u: string, c: Call)
    requires Took(t, u, c)
    ensures IsSuffix(c.next.text, t) && IsSuffix(u, t)
  {
    hide Tame;
    SuffixTransitive(c.next.text, u, t);
  }

  /** What `Fair` says of a place behind `n + 1` marks. */
  lemma FairCounts(t: string, atoms: seq<Atom>, n: nat, c: char)
    requires Fair(t, atoms) && n + 1 + Marks(t) == |atoms| && c in "=\""
    ensures TextCount(c, atoms[n + 1..]) <= Count(c, t) <= ValueCount(c, atoms[n]) + TextCount(c, atoms[n + 1..])
  {
    hide Count, TextCount, ValueCount, Marks;
  }

  lemma TooFewEquals(atoms: seq<Atom>, t: string, u: string, c: Call, n: nat)
    requires Took(t, u, c) && Fair(t, atoms) && n + 1 + Marks(t) == |atoms| && Marks(c.next.text) == Marks(t)
    requires Count('=', t) < ValueCount('=', atoms[n]) + TextCount('=', atoms[n + 1..])
    ensures atoms[n].Attr? ==> atoms[n].value != Some(Entities.Decode(c.raw))
  {
    hide Took, Tame, Marks, AmpOk, Count, TextCount, Fair, IsSuffix, Entities.Decode;
    TakenText(t, u, c);
    TakenCount('=', t, u, c);
    DecodeCounts('=', c.raw);
    TookSuffix(t, u, c);
    FairSuffix(c.next.text, t, atoms);
    FairCounts(c.next.text, atoms, n, '=');
  }

  lemma TookString(t: string, u: string, c: Call)
    requires Took(t, u, c) && c.kind == TString
    ensures StringShape(u, c.raw, c.next.text)
  {
    hide Tame, StringShape;
  }

  /** A string in double quotes holds none, while the value that was torn holds some. */
  lemma DoubleQuoted(atoms: seq<Atom>, t: string, u: string, c: Call, n: nat)
    requires Took(t, u, c) && Fair(t, atoms) && n + 1 + Marks(t) == |atoms| && Marks(c.next.text) == Marks(t)
    requires c.kind == TString && u[0] == '\"' && c.next.text != ""
    ensures atoms[n].Attr? ==> atoms[n].value != Some(Entities.Decode(c.raw))
  {
    hide Tame, Marks, AmpOk, Count, TextCount, IsSuffix, Took, Fair, Entities.Decode;
    TakenText(t, u, c);
    DecodeCounts('\"', c.raw);
    TookString(t, u, c);
    CountZero('\"', c.raw);
    TookSuffix(t, u, c);
    FairSuffix(c.next.text, t, atoms);
    FairCounts(c.next.text, atoms, n, '\"');
    FairCounts(t, atoms, n, '\"');
    SuffixCounts('\"', u, t);
    StringCount('\"', u, c.raw, c.next.text);
  }

  /** A string in single quotes passes a mark, unless it is a whole value. */
  lemma SingleQuoted(t: string, u: string, c: Call)
    requires Took(t, u, c) && Marks(c.next.text) == Marks(t) && !OpensValue(t)
    requires c.kind == TString && u[0] == '\''
    ensures c.next.text == ""
  {
    hide Tame, IsMark, AmpOk;
    TakenText(t, u, c);
    if c.next.text != "" {
      if Even(u) {
        assert OpensValue(u);
        var w := [t[|t| - |u| - 1]] + u;
        assert w[1..] == u && w == t[|t| - |w|..];
        SuffixOf(w, t);
        MarkBeforeQuote(w);
      } else {
        ClosingQuotePasses(u, c.raw, c.next.text);
      }
    }
  }

  lemma ShortIdent(atoms: seq<Atom>, t: string, u: string, c: Call, n: nat)
    requires Took(t, u, c) && n < |atoms| && Marks(c.next.text) == Marks(t)
    requires c.kind == TIdent && ShortRuns(t, EscapedLength(atoms[n]))
    ensures c.next.text[0] == '=' || (atoms[n].Attr? ==> atoms[n].value != Some(Entities.Decode(c.raw)))
  {
    hide Tame, Marks, Entities.Escape, Entities.Decode, IdentLike, EndsIdent;
    TookSuffix(t, u, c);
    var i, j := |t| - |u|, |t| - |c.next.text|;
    assert t[i..j] == c.raw && t[j..] == c.next.text && t[j] == c.next.text[0];
    assert RunAt(t, i, j);
  }

  lemma ValueIsWrong(atoms: seq<Atom>, t: string, u: string, c: Call, n: nat, attr: string)
    requires Took(t, u, c) && Fair(t, atoms) && n + 1 + Marks(t) == |atoms| && Marks(c.next.text) == Marks(t)
    requires WrongValue(atoms, t, n, attr)
    ensures atoms[n] != Attr(attr, Some(Entities.Decode(TokenOf(c).text))) || c.next.text == "" || c.next.text[0] == '='
  {
    hide Tame, Marks, Fair, Entities.Decode, TokenOf, ShortRuns, OpensValue;
    TakenText(t, u, c);
    if Count('=', t) < ValueCount('=', atoms[n]) + TextCount('=', atoms[n + 1..]) {
      TooFewEquals(atoms, t, u, c, n);
    } else if !OpensValue(t) && ShortRuns(t, EscapedLength(atoms[n])) {
      if c.kind == TIdent {
        ShortIdent(atoms, t, u, c, n);
      } else if u[0] == '\'' {
        SingleQuoted(t, u, c);
      } else if c.next.text != "" {
        DoubleQuoted(atoms, t, u, c, n);
      }
    }
  }

  // ----- one token later it is still lost

  lemma {:induction false} ShortRunsSuffix(t: string, s: string, m: nat)
    requires IsSuffix(s, t) && Marks(s) == Marks(t) && ShortRuns(t, m)
    ensures ShortRuns(s, m)
  {
    hide Marks, EndsIdent, IdentLike, Entities.Escape, Entities.Decode;
    var d := |t| - |s|;
    forall i, j | RunAt(s, i, j)
      ensures s[j] == '=' || |Entities.Escape(Entities.Decode(s[i..j]), Entities.SingleQuote)| < m
    {
      assert t[d + i..d + j] == s[i..j] && t[d + j..] == s[j..];
      assert RunAt(t, d + i, d + j);
    }
  }

  /** No value opens before the next mark. */
  lemma NoOpeningBeforeMark(t: string, s: string)
    requires Tame(t) && IsSuffix(s, t) && Marks(s) == Marks(t) && !OpensValue(t)
    ensures !OpensValue(s)
  {
    hide Tame, Marks, IsMark;
    if OpensValue(s) {
      var w := [t[|t| - |s| - 1]] + s;
      assert w[1..] == s && w == t[|t| - |w|..];
      SuffixOf(w, t);
      MarkBeforeQuote(w);
    }
  }

  lemma WrongValueStays(atoms: seq<Atom>, t: string, s: string, n: nat, attr: string)
    requires Tame(t) && IsSuffix(s, t) && Marks(s) == Marks(t) && n < |atoms| && WrongValue(atoms, t, n, attr)
    ensures WrongValue(atoms, s, n, attr)
  {
    hide Tame, Marks, ShortRuns, OpensValue, Count, TextCount, ValueCount, IsSuffix;
    SuffixCounts('=', s, t);
    if !OpensValue(t) && ShortRuns(t, EscapedLength(atoms[n])) {
      NoOpeningBeforeMark(t, s);
      ShortRunsSuffix(t, s, EscapedLength(atoms[n]));
    }
  }

  /** Behind an equals sign that is no mark there are too few of them left. */
  lemma EqualsShort(atoms: seq<Atom>, t: string, c: Call, u: string, n: nat, attr: string)
    requires Tame(t) && Fair(t, atoms) && IsSuffix(u, t) && Shape(u, LexedOf(c)) && c.kind == TEqual
    requires n + 1 + Marks(t) <= |atoms|
    ensures Short(atoms, c.next.text, n, AtString, attr)
  {
    hide Tame, Marks, Fair, Count, TextCount, ValueCount, ShortRuns, OpensValue, IsSuffix;
    EqualPasses(u, LexedOf(c));
    SuffixOf(u, t);
    SuffixCounts('=', u, t);
    if n + 1 + Marks(t) == |atoms| {
      FairCounts(t, atoms, n, '=');
    }
  }

  /** The parse is at the call `c`, which took its token from `u`. */
  ghost predicate AtCall(cfg: Config, atoms: seq<Atom>, i: Input, c: Call, u: string, below: seq<Level>, l: Level) {
    && c == Lex(i) && IsPlainToken(c.kind) && IsSuffix(u, i.text) && Shape(u, LexedOf(c))
    && Tame(i.text) && Fair(i.text, atoms) && AllGiven(atoms) && Opened(below) && Calm(l.state)
  }

  lemma CallIsSuffix(cfg: Config, atoms: seq<Atom>, i: Input, c: Call, u: string, below: seq<Level>, l: Level)
    requires AtCall(cfg, atoms, i, c, u, below, l)
    ensures IsSuffix(c.next.text, i.text) && Marks(c.next.text) <= Marks(u) <= Marks(i.text)
    ensures Tame(c.next.text) && Fair(c.next.text, atoms)
  {
    hide Tame, Marks, Fair, Lex, IdentLike, AllGiven, StringShape;
    SuffixTransitive(c.next.text, u, i.text);
    SuffixOf(u, i.text);
    SuffixOf(c.next.text, u);
    SuffixOf(c.next.text, i.text);
    FairSuffix(c.next.text, i.text, atoms);
  }

  lemma MoreDeviates(s: seq<Atom>, more: seq<Atom>, atoms: seq<Atom>)
    requires Deviates(s, atoms) && s <= more
    ensures Deviates(more, atoms)
  {
    var i :| 0 <= i < |s| && i < |atoms| && s[i] != atoms[i];
    assert more[i] != atoms[i];
  }

  /** A token that adds nothing. */
  lemma NothingMore(cfg: Config, atoms: seq<Atom>, i: Input, c: Call, u: string, below: seq<Level>, l: Level, l': Level)
    requires AtCall(cfg, atoms, i, c, u, below, l)
    requires Short(atoms, i.text, |StackAtoms(below, l)|, l.state, l.attr)
    requires l.state != AtNode && (l.state == AtString ==> l' == l)
    requires LevelAtoms(l') == LevelAtoms(l) && (l'.state == AtNode ==> c.kind == TMStart1)
    requires l'.state == AtString ==> l' == l || c.kind == TEqual
    ensures Short(atoms, c.next.text, |StackAtoms(below, l')|, l'.state, l'.attr)
  {
    hide Tame, Marks, Fair, Lex, IdentLike, WrongValue, LevelAtoms, LowerAtoms, Shape;
    var n := |StackAtoms(below, l)|;
    CallIsSuffix(cfg, atoms, i, c, u, below, l);
    if l'.state == AtNode {
      TagStartPasses(u, LexedOf(c));
    } else if l'.state == AtString {
      if l' != l {
        EqualsShort(atoms, i.text, c, u, n, l'.attr);
      } else if n + 2 + Marks(c.next.text) > |atoms| {
        WrongValueStays(atoms, i.text, c.next.text, n, l.attr);
      }
    }
  }

  lemma StackOfMore(below: seq<Level>, l: Level, l': Level, more: seq<Atom>)
    requires LevelAtoms(l') == LevelAtoms(l) + more
    ensures StackAtoms(below, l') == StackAtoms(below, l) + more
  {
    hide LevelAtoms, LowerAtoms;
  }

  /** A value that is added is wrong, or passes a mark, or an error follows. */
  lemma ValueMore(cfg: Config, atoms: seq<Atom>, i: Input, c: Call, u: string, below: seq<Level>, l: Level, l': Level)
    requires AtCall(cfg, atoms, i, c, u, below, l)
    requires Short(atoms, i.text, |StackAtoms(below, l)|, l.state, l.attr)
    requires l.state == AtString && l'.state == AtAttribute && c.kind in {TString, TIdent}
    requires LevelAtoms(l') == LevelAtoms(l) + [Attr(l.attr, Some(Entities.Decode(TokenOf(c).text)))]
    ensures Lost(atoms, c.next, below, l')
  {
    hide Tame, Marks, Fair, Lex, IdentLike, WrongValue, LevelAtoms, LowerAtoms, TokenOf, Entities.Decode, StringShape;
    var s := StackAtoms(below, l);
    var a := Attr(l.attr, Some(Entities.Decode(TokenOf(c).text)));
    StackOfMore(below, l, l', [a]);
    CallIsSuffix(cfg, atoms, i, c, u, below, l);
    if |s| + 2 + Marks(c.next.text) > |atoms| {
      ValueIsWrong(atoms, i.text, u, c, |s|, l.attr);
      assert (s + [a])[|s|] == a;
    }
  }

  lemma LostStays(cfg: Config, atoms: seq<Atom>, i: Input, c: Call, u: string, below: seq<Level>, l: Level, l': Level)
    requires AtCall(cfg, atoms, i, c, u, below, l) && Adds(cfg, l, TokenOf(c), l')
    requires Lost(atoms, i, below, l) && !Doomed(atoms, i, |StackAtoms(below, l)|, l.state)
    ensures Lost(atoms, c.next, below, l')
  {
    hide Tame, Marks, Fair, Lex, IdentLike, WrongValue, LevelAtoms, LowerAtoms, Deviates, Fold, Entities.Decode,
         Shape, StackAtoms;
    var s := StackAtoms(below, l);
    var more := if l.state == AtNode then [Tag(Fold(cfg, TokenOf(c).text))]
                else if l.state == AtString && l' != l then [Attr(l.attr, Some(Entities.Decode(TokenOf(c).text)))]
                else [];
    assert LevelAtoms(l') == LevelAtoms(l) + more;
    StackOfMore(below, l, l', more);
    CallIsSuffix(cfg, atoms, i, c, u, below, l);
    if Deviates(s, atoms) {
      MoreDeviates(s, s + more, atoms);
    } else if l.state == AtNode {
    } else if l.state == AtString && l' != l {
      ValueMore(cfg, atoms, i, c, u, below, l, l');
    } else {
      NothingMore(cfg, atoms, i, c, u, below, l, l');
    }
  }

  lemma UngivenDeviates(atoms: seq<Atom>, s: seq<Atom>, attr: string)
    requires AllGiven(atoms) && |s| < |atoms|
    ensures Deviates(s + [Attr(attr, None)], atoms)
  {
    assert (s + [Attr(attr, None)])[|s|] != atoms[|s|];
  }

  /** A tag that is opened; a property without a value is one that the tree does not have. */
  lemma LostOpens(cfg: Config, atoms: seq<Atom>, i: Input, c: Call, u: string, below: seq<Level>, l: Level, l': Level)
    requires AtCall(cfg, atoms, i, c, u, below, l) && AddsByOpening(l, l') && l.state != AtNode && l.state != AtString
    requires Lost(atoms, i, below, l) && !Doomed(atoms, i, |StackAtoms(below, l)|, l.state)
    ensures var s := StackAtoms(below, l');
            Deviates(s, atoms) || Short(atoms, c.next.text, |s|, AtIdle, "")
  {
    hide Tame, Marks, Fair, Lex, IdentLike, WrongValue, LevelAtoms, LowerAtoms, Deviates, Shape;
    var s := StackAtoms(below, l);
    var more := if l.state == AtAttributeEquals then [Attr(l.attr, None)] else [];
    assert LevelAtoms(l') == LevelAtoms(l) + more;
    StackOfMore(below, l, l', more);
    CallIsSuffix(cfg, atoms, i, c, u, below, l);
    if Deviates(s, atoms) {
      MoreDeviates(s, s + more, atoms);
    } else if more != [] {
      UngivenDeviates(atoms, s, l.attr);
    }
  }

  lemma StackOfOpened(below: seq<Level>, l: Level)
    ensures StackAtoms(below + [l], FRESH) == StackAtoms(below, l)
  {
    assert (below + [l])[..|below|] == below;
    assert LevelAtoms(FRESH) == [];
  }

  lemma LostWhenOpened(cfg: Config, atoms: seq<Atom>, i: Input, c: Call, u: string, below: seq<Level>, l: Level,
          l': Level)
    requires AtCall(cfg, atoms, i, c, u, below, l) && AddsByOpening(l, l') && l.state != AtNode && l.state != AtString
    requires Lost(atoms, i, below, l) && !Doomed(atoms, i, |StackAtoms(below, l)|, l.state)
    ensures Lost(atoms, c.next, below, l') && Lost(atoms, c.next, below + [l'], FRESH)
    ensures Opened(below + [l']) && l'.state == AtAttribute
  {
    hide Tame, Marks, Fair, Lex, IdentLike, WrongValue, Deviates, Shape;
    LostOpens(cfg, atoms, i, c, u, below, l, l');
    StackOfOpened(below, l');
  }

  lemma OpeningStates(cfg: Config, names: seq<string>, l: Level, t: Token)
    requires names != []
    ensures Act1(cfg, names, l, t).Open? ==> l.state != AtNode && l.state != AtString
  {
    hide Nearest, Fold, AppendText;
  }

  // ----- and at the end it is something else

  lemma NotTheAtoms(atoms: seq<Atom>, s: seq<Atom>, r: seq<Atom>)
    requires Deviates(s, atoms) && r <= s
    ensures r != atoms
  {
  }

  lemma LostFails(atoms: seq<Atom>, i: Input, below: seq<Level>, l: Level)
    requires Opened(below) && Lost(atoms, i, below, l)
    ensures KidsAtoms(Bottom(below, l).node.child) != atoms
  {
    hide KidsAtoms, StackAtoms, WrongValue, Deviates, Marks, Bottom;
    BottomAtoms(below, l);
    if Deviates(StackAtoms(below, l), atoms) {
      NotTheAtoms(atoms, StackAtoms(below, l), KidsAtoms(Bottom(below, l).node.child));
    }
  }

  lemma ClosedAtoms(below: seq<Level>, l: Level)
    requires Opened(below) && !Pending(l.state)
    ensures KidsAtoms(Collapse(below, l, 0).node.child) == StackAtoms(below, l)
  {
    hide KidsAtoms;
    CollapseAtoms(below, l, 0);
    assert below[..0] == [];
    if below == [] {
      assert Collapse(below, l, 0) == l;
    }
  }

  /** Closing every tag leaves what was gathered. */
  lemma LostCloses(atoms: seq<Atom>, i: Input, below: seq<Level>, l: Level)
    requires Opened(below) && Lost(atoms, i, below, l) && !Pending(l.state)
    ensures KidsAtoms(Collapse(below, l, 0).node.child) != atoms
  {
    hide KidsAtoms, StackAtoms, WrongValue, Deviates, Marks;
    CollapseAtoms(below, l, 0);
    ClosedAtoms(below, l);
    if Deviates(StackAtoms(below, l), atoms) {
      NotTheAtoms(atoms, StackAtoms(below, l), StackAtoms(below, l));
    }
  }

  /** What is left of a parse that has lost something is not the tree. */
  ghost predicate EndsOtherwise(atoms: seq<Atom>, f: Final) {
    var g := AtEndOfFile(f);
    g.Finished? ==> KidsAtoms(g.node.child) != atoms
  }

  lemma LostEnds(atoms: seq<Atom>, i: Input, below: seq<Level>, l: Level)
    requires Opened(below) && Calm(l.state) && Lost(atoms, i, below, l)
    ensures EndsOtherwise(atoms, Running(below, l)) && EndsOtherwise(atoms, Finished(false, Bottom(below, l).node))
  {
    hide KidsAtoms, Lost, Collapse, Bottom;
    LostFails(atoms, i, below, l);
    if l.state == AtIdle {
      LostCloses(atoms, i, below, l);
    }
  }

  lemma EqualFails(cfg: Config, names: seq<string>, l: Level)
    requires names != [] && l.state == AtAttribute
    ensures Act1(cfg, names, l, Token(TEqual, "=")) == Fail
  {
  }

  lemma DoomedEnds(cfg: Config, atoms: seq<Atom>, i: Input, below: seq<Level>, l: Level)
    requires Opened(below) && Doomed(atoms, i, |StackAtoms(below, l)|, l.state) && !i.inComment
    ensures EndsOtherwise(atoms, Reading(cfg, i, below, l))
  {
    hide KidsAtoms, StackAtoms, Lex, Tokens, Run, Act1, Names, EndsOtherwise, Bottom;
    LostEnds(atoms, i, below, l);
    if i.text == "" {
      EndOfFileIsStable(i);
      TokensStep(i);
      NoTokens(cfg, below, l);
    } else {
      var x := i.text[1..];
      assert i.text == "=" + x;
      LexEqual(x, i.size);
      var c := Call(TEqual, "=", Ahead(x, Normal, i.size));
      TokenOfNulFree(c);
      EqualFails(cfg, Names(below), l);
      ReadCall(cfg, i, c, below, l);
    }
  }

  lemma ReadEnd(cfg: Config, i: Input, below: seq<Level>, l: Level)
    requires Lex(i).kind == TEof || Lex(i).kind == TError
    ensures Reading(cfg, i, below, l) ==
            if Lex(i).kind == TEof then Running(below, l) else Finished(false, Bottom(below, l).node)
  {
    hide Lex, Tokens, Act1;
    TokensStep(i);
  }

  /** A close tag moves what was gathered. */
  lemma LostReturns(cfg: Config, atoms: seq<Atom>, i: Input, c: Call, u: string, below: seq<Level>, l: Level, k: nat)
    requires AtCall(cfg, atoms, i, c, u, below, l) && !Pending(l.state) && Lost(atoms, i, below, l) && 0 < k <= |below|
    ensures Lost(atoms, c.next, below[..k - 1], Collapse(below, l, k - 1))
    ensures Collapse(below, l, k - 1).state == AtIdle
  {
    hide Tame, Marks, Fair, Lex, IdentLike, WrongValue, Deviates, Shape, StackAtoms, Collapse;
    CallIsSuffix(cfg, atoms, i, c, u, below, l);
    CollapseAtoms(below, l, k - 1);
  }

  ghost predicate Ready(cfg: Config, atoms: seq<Atom>, i: Input, below: seq<Level>, top: Level) {
    && Tame(i.text) && Fair(i.text, atoms) && AllGiven(atoms) && !i.inComment && i.mode != Cdata
    && Opened(below) && Calm(top.state) && !cfg.multiText
  }

  lemma ReadyAfter(cfg: Config, atoms: seq<Atom>, i: Input, c: Call, u: string, below: seq<Level>, top: Level)
    requires Ready(cfg, atoms, i, below, top) && c == Lex(i) && IsSuffix(u, i.text) && Shape(u, LexedOf(c))
    requires c.kind != TEof && c.kind != TError
    ensures AtCall(cfg, atoms, i, c, u, below, top)
    ensures Tame(c.next.text) && Fair(c.next.text, atoms) && !c.next.inComment && c.next.mode != Cdata
    ensures Measure(c.next.text, c.next.mode) < Measure(i.text, i.mode)
  {
    hide Tame, Marks, Fair, Lex, IdentLike, StringShape, AllGiven;
    LexProgress(i);
    CallIsSuffix(cfg, atoms, i, c, u, below, top);
  }

  lemma CalmAfter(cfg: Config, l: Level, t: Token, l': Level)
    requires Adds(cfg, l, t, l')
    ensures Calm(l'.state)
  {
    hide LevelAtoms, Entities.Decode, Fold;
  }

  lemma EndsClosed(atoms: seq<Atom>, node: Content)
    requires KidsAtoms(node.child) != atoms
    ensures EndsOtherwise(atoms, Finished(true, node))
  {
  }

  /** Whatever is still read, a parse that has lost something does not end with the tree. */
  lemma {:induction false} LostForGood(cfg: Config, atoms: seq<Atom>, i: Input, below: seq<Level>, top: Level)
    requires Ready(cfg, atoms, i, below, top) && Lost(atoms, i, below, top)
    ensures EndsOtherwise(atoms, Reading(cfg, i, below, top))
    decreases Measure(i.text, i.mode)
  {
    hide Tame, Fair, Lex, Tokens, Run, Act1, Names, Shape, Doomed, Deviates, Short, EndsOtherwise, StackAtoms, Bottom,
         Collapse;
    hide CloseIndex, AllGiven, Adds, AddsByOpening, TokenOf, Measure, IsSuffix;
    if Doomed(atoms, i, |StackAtoms(below, top)|, top.state) {
      DoomedEnds(cfg, atoms, i, below, top);
      return;
    }
    var c := Lex(i);
    var u := LexShape(i);
    if c.kind == TEof || c.kind == TError {
      ReadEnd(cfg, i, below, top);
      LostEnds(atoms, i, below, top);
    } else {
      ReadyAfter(cfg, atoms, i, c, u, below, top);
      ReadCall(cfg, i, c, below, top);
      TokenAdds(cfg, Names(below), top, TokenOf(c));
      match Act1(cfg, Names(below), top, TokenOf(c))
      case Fail => LostEnds(atoms, i, below, top);
      case Stay(l) =>
        LostStays(cfg, atoms, i, c, u, below, top, l);
        CalmAfter(cfg, top, TokenOf(c), l);
        LostForGood(cfg, atoms, c.next, below, l);
      case Open(l) =>
        OpeningStates(cfg, Names(below), top, TokenOf(c));
        LostWhenOpened(cfg, atoms, i, c, u, below, top, l);
        if |below| + 2 > MAX_RECURSION {
          LostEnds(atoms, c.next, below, l);
        } else {
          LostForGood(cfg, atoms, c.next, below + [l], FRESH);
        }
      case Return(l) =>
        var k := CloseIndex(Names(below), l.closing);
        if k == 0 {
          LostCloses(atoms, i, below, l);
          EndsClosed(atoms, Collapse(below, l, 0).node);
        } else {
          LostReturns(cfg, atoms, i, c, u, below, l, k);
          LostForGood(cfg, atoms, c.next, below[..k - 1], Collapse(below, l, k - 1));
        }
      case End(_) =>
    }
  }
}
