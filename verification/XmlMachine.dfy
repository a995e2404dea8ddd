/**
 A simple account of relaxed parsing, against which the recursive builder is
 proved: one loop over the tokens and an explicit stack of open tags.  A
 close tag closes everything down to the nearest open tag of its name, or
 nothing if there is none, and the end of file closes everything.
 */
module XmlMachine {
  import opened XmlTree
  import opened L = XmlLexer
  import opened XmlBuilder

  /** Where the machine is after some tokens; `ok` is false after an error, where the open tags are dropped. */
  datatype Final = Running(below: seq<Level>, top: Level) | Finished(ok: bool, node: Content)

  /** Open tags: the outermost is the nameless root, the others were opened by the levels below the top. */
  function Names(below: seq<Level>): (names: seq<string>)
    ensures |names| == |below| + 1
  {
    [""] + seq(|below|, i requires 0 <= i < |below| => below[i].name)
  }

  function Bottom(below: seq<Level>, top: Level): Level {
    if below == [] then top else below[0]
  }

  /** Closes open tags until `keep` levels are left below the one returned. */
  function Collapse(below: seq<Level>, top: Level, keep: nat): (l: Level)
    requires keep <= |below|
    decreases |below|
  {
    if |below| == keep then top
    else Collapse(below[..|below| - 1], Link(below[|below| - 1], top.node), keep)
  }

  /** At the end of file every call of the lexer returns a token for it, and each closes one open tag. */
  function Run(cfg: Config, ts: seq<Token>, below: seq<Level>, top: Level): Final
    decreases |ts|
  {
    if ts == [] then Running(below, top)
    else if ts[0].kind == TError then Finished(false, Bottom(below, top).node)
    else
      match Act1(cfg, Names(below), top, ts[0])
      case Fail => Finished(false, Bottom(below, top).node)
      case Stay(l) => Run(cfg, ts[1..], below, l)
      case Open(l) =>
        if |below| + 2 > MAX_RECURSION then Finished(false, Bottom(below, l).node)
        else Run(cfg, ts[1..], below + [l], FRESH)
      case Return(l) =>
        var k := CloseIndex(Names(below), l.closing);
        if k == 0 then Finished(true, Collapse(below, l, 0).node)
        else Run(cfg, ts[1..], below[..k - 1], Collapse(below, l, k - 1))
      case End(l) =>
        if below == [] then Finished(true, l.node)
        else Run(cfg, ts[1..], below[..|below| - 1], Link(below[|below| - 1], l.node))
  }

  // ----- the recursion is the machine

  /** What the activations in `below` do with the result of the one above them. */
  function Unwind(cfg: Config, r: Result, below: seq<Level>): Final
    requires r.Done?
    decreases |below|
  {
    if below == [] then Finished(r.code == 0, r.node)
    else
      var l, lower := below[|below| - 1], below[..|below| - 1];
      if r.code == -1 || r.code > 0 then Unwind(cfg, r.(node := l.node), lower)
      else if r.code < -1 then Unwind(cfg, Done(UnwindCode(r.code), r.rest, Link(l, r.node).node), lower)
      else Run(cfg, r.rest, lower, Link(l, r.node))
  }

  /** The machine does what the recursion does: it runs on with it, or gives what becomes of its result. */
  ghost predicate Agrees(cfg: Config, f: Final, r: Result, below: seq<Level>) {
    if r.Unfinished? then f.Running? else f == Unwind(cfg, r, below)
  }

  lemma {:induction false} UnwindError(cfg: Config, rest: seq<Token>, below: seq<Level>, top: Level)
    ensures Unwind(cfg, Done(-1, rest, top.node), below) == Finished(false, Bottom(below, top).node)
    decreases |below|
  {
    hide Run;
    if below != [] {
      UnwindError(cfg, rest, below[..|below| - 1], below[|below| - 1]);
    }
  }

  /** Return codes are unwound one level at a time and reach 0 exactly at the level that was named. */
  lemma {:induction false} UnwindClose(cfg: Config, rest: seq<Token>, below: seq<Level>, top: Level, k: nat)
    requires k <= |below|
    ensures Unwind(cfg, Done(CloseCode(|below| + 1, k), rest, top.node), below) ==
            if k == 0 then Finished(true, Collapse(below, top, 0).node)
            else Run(cfg, rest, below[..k - 1], Collapse(below, top, k - 1))
    decreases |below|
  {
    hide Run, Link;
    if below != [] {
      var l, lower := below[|below| - 1], below[..|below| - 1];
      if k < |below| {
        UnwindClose(cfg, rest, lower, Link(l, top.node), k);
        assert k > 0 ==> lower[..k - 1] == below[..k - 1];
      } else {
        assert below[..k - 1] == lower;
      }
    }
  }

  /** From any point of the parse, the rest of the recursion does what the machine does. */
  lemma {:induction false} RecursionSimulatesMachine(cfg: Config, ts: seq<Token>, below: seq<Level>, top: Level)
    requires |below| + 1 <= MAX_RECURSION
    ensures Agrees(cfg, Run(cfg, ts, below, top), GetNode(cfg, ts, Names(below), top), below)
    decreases |ts|
  {
    hide Act1, Link, CloseCode, CloseIndex, UnwindCode;
    if ts == [] {
    } else if ts[0].kind == TError {
      UnwindError(cfg, ts[1..], below, top);
    } else {
      match Act1(cfg, Names(below), top, ts[0])
      case Fail => UnwindError(cfg, ts[1..], below, top);
      case Stay(l) => RecursionSimulatesMachine(cfg, ts[1..], below, l);
      case Return(l) => UnwindClose(cfg, ts[1..], below, l, CloseIndex(Names(below), l.closing));
      case End(l) =>
      case Open(l) => RecursionOpens(cfg, ts, below, top, l);
    }
  }

  lemma {:induction false} RecursionOpens(cfg: Config, ts: seq<Token>, below: seq<Level>, top: Level, l: Level)
    requires |below| + 1 <= MAX_RECURSION && ts != [] && ts[0].kind != TError
    requires Act1(cfg, Names(below), top, ts[0]) == Open(l)
    ensures Agrees(cfg, Run(cfg, ts, below, top), GetNode(cfg, ts, Names(below), top), below)
    decreases |ts|, 0
  {
    hide Act1, Link, UnwindCode;
    var names := Names(below) + [l.name];
    assert Names(below + [l]) == names;
    var r := GetNode(cfg, ts[1..], names, FRESH);
    if |below| + 2 > MAX_RECURSION {
      UnwindError(cfg, ts[1..], below, l);
    } else {
      RecursionSimulatesMachine(cfg, ts[1..], below + [l], FRESH);
      assert (below + [l])[..|below|] == below;
      if r.Done? && r.code == 0 {
        RecursionSimulatesMachine(cfg, r.rest, below, Link(l, r.node));
      }
    }
  }

  /** The codes an activation at depth |names| can return; at depth one there is nothing left to unwind. */
  lemma {:induction false} CodesStayInRange(cfg: Config, ts: seq<Token>, names: seq<string>, l: Level)
    requires names != []
    ensures var r := GetNode(cfg, ts, names, l);
            r.Done? ==> r.code == 0 || r.code == -1 || -|names| <= r.code <= -2
    decreases |ts|
  {
    hide Act1, Link, CloseIndex;
    if |names| <= MAX_RECURSION && ts != [] && ts[0].kind != TError {
      match Act1(cfg, names, l, ts[0])
      case Fail =>
      case Return(l') =>
      case End(l') =>
      case Stay(l') => CodesStayInRange(cfg, ts[1..], names, l');
      case Open(l') =>
        CodesStayInRange(cfg, ts[1..], names + [l'.name], FRESH);
        var r := GetNode(cfg, ts[1..], names + [l'.name], FRESH);
        if r.Done? && r.code == 0 {
          CodesStayInRange(cfg, r.rest, names, Link(l', r.node));
        }
    }
  }

  /**
   The whole recursive parse is the stack machine, errors included, for as many
   tokens as there are, and the top level never returns a code that is still to
   be unwound.
   */
  lemma RecursionIsStackMachine(cfg: Config, ts: seq<Token>)
    ensures match GetNode(cfg, ts, [""], FRESH)
            case Unfinished => Run(cfg, ts, [], FRESH).Running?
            case Done(code, _, node) =>
              && (code == 0 || code == -1)
              && Run(cfg, ts, [], FRESH) == Finished(code == 0, node)
  {
    hide Run, GetNode;
    RecursionSimulatesMachine(cfg, ts, [], FRESH);
    assert Names([]) == [""];
    CodesStayInRange(cfg, ts, [""], FRESH);
  }

  // ----- what the machine does with a close tag

  /** The tokens of `</name>`. */
  function CloseTag(name: string): seq<Token> {
    [Token(TMStart2, "</"), Token(TIdent, name), Token(TMStop1, ">")]
  }

  lemma CloseTagActs(cfg: Config, names: seq<string>, l: Level, name: string)
    requires names != [] && cfg.relaxed && l.state == AtIdle
    ensures var (n, l1) := (Fold(cfg, name), l.(state := AtNodeClose));
            var l2 := if n in names then l1.(state := AtTagTerm, closing := n) else l1.(state := AtTagTermIgnore);
            && Act1(cfg, names, l, Token(TMStart2, "</")) == Stay(l1)
            && Act1(cfg, names, l1, Token(TIdent, name)) == Stay(l2)
            && Act1(cfg, names, l2, Token(TMStop1, ">")) == if n in names then Return(l2) else Stay(l)
  {
    hide Fold;
  }

  /** What the machine does after an act on a token, with the tokens behind it. */
  function AfterAct(cfg: Config, ts: seq<Token>, below: seq<Level>, top: Level, act: Act): Final {
    match act
    case Fail => Finished(false, Bottom(below, top).node)
    case Stay(l) => Run(cfg, ts, below, l)
    case Open(l) =>
      if |below| + 2 > MAX_RECURSION then Finished(false, Bottom(below, l).node)
      else Run(cfg, ts, below + [l], FRESH)
    case Return(l) =>
      var k := CloseIndex(Names(below), l.closing);
      if k == 0 then Finished(true, Collapse(below, l, 0).node)
      else Run(cfg, ts, below[..k - 1], Collapse(below, l, k - 1))
    case End(l) =>
      if below == [] then Finished(true, l.node)
      else Run(cfg, ts, below[..|below| - 1], Link(below[|below| - 1], l.node))
  }

  lemma RunStep(cfg: Config, t: Token, ts: seq<Token>, below: seq<Level>, top: Level)
    requires t.kind != TError
    ensures Run(cfg, [t] + ts, below, top) == AfterAct(cfg, ts, below, top, Act1(cfg, Names(below), top, t))
  {
    hide Act1, Collapse, CloseIndex, Names, Bottom, Link;
    assert ([t] + ts)[1..] == ts;
  }

  /** The three tokens one at a time. */
  lemma CloseTagSteps(cfg: Config, name: string, ts: seq<Token>, below: seq<Level>, top: Level)
    requires cfg.relaxed && top.state == AtIdle
    ensures var n := Fold(cfg, name);
            Run(cfg, CloseTag(name) + ts, below, top) ==
            if n !in Names(below) then Run(cfg, ts, below, top)
            else
              var l := top.(state := AtTagTerm, closing := n);
              var k := CloseIndex(Names(below), n);
              if k == 0 then Finished(true, Collapse(below, l, 0).node)
              else Run(cfg, ts, below[..k - 1], Collapse(below, l, k - 1))
  {
    hide Run, Collapse, Names, Act1, CloseIndex;
    var t1, t2, t3 := Token(TMStart2, "</"), Token(TIdent, name), Token(TMStop1, ">");
    assert CloseTag(name) + ts == [t1] + ([t2] + ([t3] + ts));
    CloseTagActs(cfg, Names(below), top, name);
    var l1 := top.(state := AtNodeClose);
    RunStep(cfg, t1, [t2] + ([t3] + ts), below, top);
    RunStep(cfg, t2, [t3] + ts, below, l1);
    if Fold(cfg, name) !in Names(below) {
      RunStep(cfg, t3, ts, below, l1.(state := AtTagTermIgnore));
    } else {
      RunStep(cfg, t3, ts, below, l1.(state := AtTagTerm, closing := Fold(cfg, name)));
    }
  }

  /** In relaxed mode a close tag that matches nothing is skipped. */
  lemma UnmatchedCloseTagIsIgnored(cfg: Config, name: string, ts: seq<Token>, below: seq<Level>, top: Level)
    requires cfg.relaxed && top.state == AtIdle
    requires Fold(cfg, name) !in Names(below)
    ensures Run(cfg, CloseTag(name) + ts, below, top) == Run(cfg, ts, below, top)
  {
    CloseTagSteps(cfg, name, ts, below, top);
  }

  /** A close tag closes every open tag down to the nearest one of its name, that one included. */
  lemma CloseTagClosesNearest(cfg: Config, name: string, ts: seq<Token>, below: seq<Level>, top: Level, k: nat)
    requires cfg.relaxed && top.state == AtIdle
    requires 1 <= k <= |below| && Names(below)[k] == Fold(cfg, name)
    requires forall i :: k < i <= |below| ==> Names(below)[i] != Fold(cfg, name)
    ensures Run(cfg, CloseTag(name) + ts, below, top) == Run(cfg, ts, below[..k - 1], Collapse(below, top, k - 1))
  {
    hide Run, Fold;
    CloseTagSteps(cfg, name, ts, below, top);
    var l := top.(state := AtTagTerm, closing := Fold(cfg, name));
    assert CloseIndex(Names(below), Fold(cfg, name)) == k;
    assert Collapse(below, l, k - 1) == Collapse(below, top, k - 1);
  }

  // ----- one token after the other

  /** What the machine goes on to do from where it is. */
  function Continue(cfg: Config, f: Final, ts: seq<Token>): Final {
    if f.Running? then Run(cfg, ts, f.below, f.top) else f
  }

  lemma {:induction false} RunOfConcat(cfg: Config, ts: seq<Token>, us: seq<Token>, below: seq<Level>, top: Level)
    ensures Run(cfg, ts + us, below, top) == Continue(cfg, Run(cfg, ts, below, top), us)
    decreases |ts|
  {
    hide Act1, Collapse, CloseIndex, Names, Bottom, Link;
    if ts == [] {
      assert ts + us == us;
    } else {
      assert (ts + us)[1..] == ts[1..] + us && (ts + us)[0] == ts[0];
      if ts[0].kind != TError {
        match Act1(cfg, Names(below), top, ts[0])
        case Fail =>
        case Stay(l) => RunOfConcat(cfg, ts[1..], us, below, l);
        case Open(l) => RunOfConcat(cfg, ts[1..], us, below + [l], FRESH);
        case Return(l) =>
          var k := CloseIndex(Names(below), l.closing);
          RunOfConcat(cfg, ts[1..], us, if k == 0 then below else below[..k - 1],
            Collapse(below, l, if k == 0 then 0 else k - 1));
        case End(l) =>
          if below != [] {
            RunOfConcat(cfg, ts[1..], us, below[..|below| - 1], Link(below[|below| - 1], l.node));
          }
      }
    }
  }

  lemma {:induction false} StackIsBounded(cfg: Config, ts: seq<Token>, below: seq<Level>, top: Level)
    requires |below| < MAX_RECURSION
    ensures var f := Run(cfg, ts, below, top); f.Running? ==> |f.below| < MAX_RECURSION
    decreases |ts|
  {
    hide Act1, Collapse, CloseIndex, Names, Bottom, Link;
    if ts != [] && ts[0].kind != TError {
      match Act1(cfg, Names(below), top, ts[0])
      case Fail =>
      case Stay(l) => StackIsBounded(cfg, ts[1..], below, l);
      case Open(l) =>
        if |below| + 2 <= MAX_RECURSION {
          StackIsBounded(cfg, ts[1..], below + [l], FRESH);
        }
      case Return(l) =>
        var k := CloseIndex(Names(below), l.closing);
        if k > 0 {
          StackIsBounded(cfg, ts[1..], below[..k - 1], Collapse(below, l, k - 1));
        }
      case End(l) =>
        if below != [] {
          StackIsBounded(cfg, ts[1..], below[..|below| - 1], Link(below[|below| - 1], l.node));
        }
    }
  }

  // ----- the end of file

  predicate Skips(state: ParserState) {
    state == AtComment || state == AtDoctype
  }

  lemma EofActs(cfg: Config, names: seq<string>, l: Level)
    requires names != []
    ensures Act1(cfg, names, l, Token(TEof, "")) == if l.state == AtIdle then End(l)
            else if Skips(l.state) then Stay(l) else Fail
  {
    hide Nearest, AppendText, Fold;
  }

  /** Between tags the end of file closes everything, one open tag for each time it is returned. */
  lemma {:induction false} EofsClose(cfg: Config, below: seq<Level>, top: Level, k: nat)
    requires top.state == AtIdle && k > |below|
    ensures Run(cfg, Eofs(k), below, top) == Finished(true, Collapse(below, top, 0).node)
    decreases k
  {
    hide Eofs, Act1, Names;
    EofsUnfold(k - 1);
    RunStep(cfg, Token(TEof, ""), Eofs(k - 1), below, top);
    EofActs(cfg, Names(below), top);
    if below != [] {
      EofsClose(cfg, below[..|below| - 1], Link(below[|below| - 1], top.node), k - 1);
    }
  }

  /** Within a comment or document type it changes nothing, however often it is returned. */
  lemma {:induction false} EofsAreSkipped(cfg: Config, below: seq<Level>, top: Level, k: nat)
    requires Skips(top.state)
    ensures Run(cfg, Eofs(k), below, top) == Running(below, top)
    decreases k
  {
    hide Eofs, Act1, Names;
    if k == 0 {
      assert Eofs(0) == [];
    } else {
      EofsUnfold(k - 1);
      RunStep(cfg, Token(TEof, ""), Eofs(k - 1), below, top);
      EofActs(cfg, Names(below), top);
      EofsAreSkipped(cfg, below, top, k - 1);
    }
  }

  /** Anywhere else it is an error. */
  lemma EofFails(cfg: Config, below: seq<Level>, top: Level, k: nat)
    requires top.state != AtIdle && !Skips(top.state) && k > 0
    ensures Run(cfg, Eofs(k), below, top) == Finished(false, Bottom(below, top).node)
  {
    hide Eofs, Act1, Names;
    EofsUnfold(k - 1);
    RunStep(cfg, Token(TEof, ""), Eofs(k - 1), below, top);
    EofActs(cfg, Names(below), top);
  }

  /** What the end of file makes of the place where the tokens of the text leave the machine. */
  function AtEndOfFile(f: Final): Final {
    if f.Finished? || Skips(f.top.state) then f
    else if f.top.state == AtIdle then Finished(true, Collapse(f.below, f.top, 0).node)
    else Finished(false, Bottom(f.below, f.top).node)
  }

  lemma IdleIsNoSkip(l: Level)
    requires l.state == AtIdle
    ensures !Skips(l.state)
  {
  }

  /** As many ends of file as there can be activations settle the parse, if any number does. */
  lemma EofsSettle(cfg: Config, ts: seq<Token>, k: nat)
    requires k >= MAX_RECURSION
    ensures Run(cfg, ts + Eofs(k), [], FRESH) == AtEndOfFile(Run(cfg, ts, [], FRESH))
  {
    hide Run, Eofs, Skips;
    var f := Run(cfg, ts, [], FRESH);
    RunOfConcat(cfg, ts, Eofs(k), [], FRESH);
    StackIsBounded(cfg, ts, [], FRESH);
    if f.Running? {
      if f.top.state == AtIdle {
        IdleIsNoSkip(f.top);
        EofsClose(cfg, f.below, f.top, k);
      } else if Skips(f.top.state) {
        EofsAreSkipped(cfg, f.below, f.top, k);
      } else {
        EofFails(cfg, f.below, f.top, k);
      }
    }
  }

  // ----- when a parse does not end

  /** No number of calls at the end of file makes the parse of the text return. */
  ghost predicate NeverReturns(cfg: Config, ts: seq<Token>) {
    forall k: nat :: GetNode(cfg, ts + Eofs(k), [""], FRESH).Unfinished?
  }

  lemma NeverReturnsIffSkipping(cfg: Config, ts: seq<Token>)
    ensures var f := Run(cfg, ts, [], FRESH);
            NeverReturns(cfg, ts) <==> f.Running? && Skips(f.top.state)
  {
    hide Run, GetNode, Skips, Eofs;
    var f := Run(cfg, ts, [], FRESH);
    if f.Running? && Skips(f.top.state) {
      forall k: nat
        ensures GetNode(cfg, ts + Eofs(k), [""], FRESH).Unfinished?
      {
        RunOfConcat(cfg, ts, Eofs(k), [], FRESH);
        EofsAreSkipped(cfg, f.below, f.top, k);
        RecursionIsStackMachine(cfg, ts + Eofs(k));
      }
    } else {
      EofsSettle(cfg, ts, MAX_RECURSION);
      RecursionIsStackMachine(cfg, ts + Eofs(MAX_RECURSION));
    }
  }

  predicate StartsSkip(kind: Kind) {
    kind == TCStart || kind == TDoctypeStart
  }

  /** No token ends the comment or document type that a token of kind `start` began. */
  predicate Unended(start: Kind, ts: seq<Token>) {
    forall j :: 0 <= j < |ts| ==> ts[j].kind != TError && ts[j].kind != if start == TCStart then TCStop else TMStop1
  }

  /** Token `i` starts a comment or document type between tags, and no later token ends it. */
  ghost predicate LeavesOpen(cfg: Config, ts: seq<Token>, i: nat)
    requires i < |ts|
  {
    var f := Run(cfg, ts[..i], [], FRESH);
    f.Running? && f.top.state == AtIdle && StartsSkip(ts[i].kind) && Unended(ts[i].kind, ts[i + 1..])
  }

  lemma {:induction false} SkippingGoesOn(cfg: Config, start: Kind, ts: seq<Token>, below: seq<Level>, top: Level)
    requires StartsSkip(start) && top.state == (if start == TCStart then AtComment else AtDoctype)
    requires Unended(start, ts)
    ensures Run(cfg, ts, below, top) == Running(below, top)
    decreases |ts|
  {
    hide Names;
    if ts != [] {
      assert Act1(cfg, Names(below), top, ts[0]) == Stay(top);
      assert Unended(start, ts[1..]);
      SkippingGoesOn(cfg, start, ts[1..], below, top);
    }
  }

  lemma LeavingOpenSkips(cfg: Config, ts: seq<Token>, i: nat)
    requires i < |ts| && LeavesOpen(cfg, ts, i)
    ensures var f := Run(cfg, ts, [], FRESH); f.Running? && Skips(f.top.state)
  {
    hide Run, Unended;
    var f := Run(cfg, ts[..i], [], FRESH);
    var l := f.top.(state := if ts[i].kind == TCStart then AtComment else AtDoctype);
    assert ts == ts[..i] + ([ts[i]] + ts[i + 1..]);
    RunOfConcat(cfg, ts[..i], [ts[i]] + ts[i + 1..], [], FRESH);
    RunStep(cfg, ts[i], ts[i + 1..], f.below, f.top);
    SkippingGoesOn(cfg, ts[i].kind, ts[i + 1..], f.below, l);
  }

  /** A token leads into a comment or document type only by starting it, and out of it only by ending it. */
  lemma SkipActs(cfg: Config, names: seq<string>, l: Level, t: Token)
    requires names != []
    ensures var act := Act1(cfg, names, l, t);
            act.Stay? && Skips(act.level.state) && t.kind != TError ==>
              if l.state == AtIdle
              then StartsSkip(t.kind) && act.level.state == (if t.kind == TCStart then AtComment else AtDoctype)
              else act.level == l && Unended(if l.state == AtComment then TCStart else TDoctypeStart, [t])
  {
    hide Nearest, AppendText, Fold;
  }

  lemma {:induction false} CollapsedIsIdle(below: seq<Level>, top: Level, keep: nat)
    requires keep < |below|
    ensures Collapse(below, top, keep).state == AtIdle
    decreases |below|
  {
    if keep + 1 < |below| {
      CollapsedIsIdle(below[..|below| - 1], Link(below[|below| - 1], top.node), keep);
    }
  }

  /** One token later the machine is in a comment or document type only because it was, or because one starts. */
  lemma SkipAfterToken(cfg: Config, t: Token, below: seq<Level>, top: Level)
    requires var f := Run(cfg, [t], below, top); f.Running? && Skips(f.top.state)
    ensures var f := Run(cfg, [t], below, top);
            if top.state == AtIdle
            then StartsSkip(t.kind) && f.top.state == (if t.kind == TCStart then AtComment else AtDoctype)
            else f.top.state == top.state && Unended(if top.state == AtComment then TCStart else TDoctypeStart, [t])
  {
    hide Act1, Names, CloseIndex, Skips, Unended;
    assert [t] + [] == [t];
    RunStep(cfg, t, [], below, top);
    SkipActs(cfg, Names(below), top, t);
    match Act1(cfg, Names(below), top, t)
    case Return(l) =>
      var k := CloseIndex(Names(below), l.closing);
      if k > 0 {
        CollapsedIsIdle(below, l, k - 1);
        IdleIsNoSkip(Collapse(below, l, k - 1));
      }
    case End(l) =>
      if below != [] {
        IdleIsNoSkip(Link(below[|below| - 1], l.node));
      }
    case Open(l) => IdleIsNoSkip(FRESH);
    case _ =>
  }

  lemma NoTokens(cfg: Config, below: seq<Level>, top: Level)
    ensures Run(cfg, [], below, top) == Running(below, top)
  {
  }

  lemma NothingIsUnended(start: Kind)
    ensures Unended(start, [])
  {
  }

  lemma UnendedOfMore(start: Kind, ts: seq<Token>, t: Token)
    requires Unended(start, ts) && Unended(start, [t])
    ensures Unended(start, ts + [t])
  {
    assert [t][0] == t;
  }

  /** Behind tokens that leave the machine in a comment or document type there is the token that started it. */
  lemma {:induction false} SkippingWasStarted(cfg: Config, ts: seq<Token>) returns (i: nat)
    requires var f := Run(cfg, ts, [], FRESH); f.Running? && Skips(f.top.state)
    ensures i < |ts| && LeavesOpen(cfg, ts, i)
    ensures Run(cfg, ts, [], FRESH).top.state == if ts[i].kind == TCStart then AtComment else AtDoctype
    decreases |ts|
  {
    hide Skips, Unended, Run;
    var f := Run(cfg, ts, [], FRESH);
    if ts == [] {
      NoTokens(cfg, [], FRESH);
      IdleIsNoSkip(FRESH);
      assert false;
    } else {
      var n := |ts| - 1;
      var before := Run(cfg, ts[..n], [], FRESH);
      assert ts == ts[..n] + [ts[n]];
      RunOfConcat(cfg, ts[..n], [ts[n]], [], FRESH);
      SkipAfterToken(cfg, ts[n], before.below, before.top);
      if before.top.state == AtIdle {
        i := n;
        assert ts[n + 1..] == [];
        NothingIsUnended(ts[n].kind);
      } else {
        i := SkippingWasStarted(cfg, ts[..n]);
        assert ts[..n][..i] == ts[..i] && ts[i + 1..] == ts[..n][i + 1..] + [ts[n]];
        UnendedOfMore(ts[i].kind, ts[..n][i + 1..], ts[n]);
      }
    }
  }

  /**
   A parse never returns, however often it is told the end of file, exactly
   when some token of the text starts a comment or document type between tags
   and no later one ends it.
   */
  lemma ParseHangsExactlyInOpenSkips(cfg: Config, ts: seq<Token>)
    ensures NeverReturns(cfg, ts) <==> exists i :: 0 <= i < |ts| && LeavesOpen(cfg, ts, i)
  {
    hide Run, Skips, LeavesOpen, NeverReturns;
    NeverReturnsIffSkipping(cfg, ts);
    var f := Run(cfg, ts, [], FRESH);
    if f.Running? && Skips(f.top.state) {
      var i := SkippingWasStarted(cfg, ts);
    }
    if i :| 0 <= i < |ts| && LeavesOpen(cfg, ts, i) {
      LeavingOpenSkips(cfg, ts, i);
    }
  }

  /** Nothing but `<!--` keeps the parser busy for ever. */
  lemma OpenCommentHangs(cfg: Config)
    ensures NeverReturns(cfg, TokensOf("<!--"))
  {
    hide TokensOf, NeverReturns, Run;
    OpenCommentTokens();
    var ts := TokensOf("<!--");
    assert ts[..0] == [] && ts[1..] == [];
    NoTokens(cfg, [], FRESH);
    assert LeavesOpen(cfg, ts, 0);
    ParseHangsExactlyInOpenSkips(cfg, ts);
  }

  /** A text without `<!-` and `<!D` is always parsed to an end. */
  lemma NoDeclarationNoHang(cfg: Config, text: string)
    requires Undeclared(text)
    ensures !NeverReturns(cfg, TokensOf(text))
  {
    hide Tokens, NeverReturns, Undeclared, Run, Unended;
    UndeclaredTokens(Start(text));
    ParseHangsExactlyInOpenSkips(cfg, TokensOf(text));
  }
}
