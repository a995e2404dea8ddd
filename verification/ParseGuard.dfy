/**
 The recursion guard of `idol_pl_parser_parse_internal`
 (plparse/idol-pl-parser.c:1751-1969) over any set of playlists that name each
 other, cyclically or not.  What the files are, and which files a handler asks
 for, are parameters; a handler may choose its next file by the results so far.
 */
module ParseGuard {
  import opened CText

  const RECURSE_LEVEL_MAX := 4

  datatype Result = Unhandled | Error | Success | Ignored | Cancelled

  /** Stream schemes are never parsed; feed schemes go to handlers that do not come back here. */
  datatype Scheme = Stream | Feed(result: Result) | Other

  /** What the content type makes of a file; `Dual` files may turn out not to be playlists. */
  datatype Class =
    | NoType
    | EmptyFile
    | IgnoredType
    | Special(unsafe: bool)
    | DualHandled
    | DualRefused(plainText: bool)
    | NotInTables

  /** A handler's request, and the `fallback` it sets for the time of the request. */
  datatype Link = Link(file: string, fallback: bool)

  /**
   What the files are: their scheme, what the video site code makes of those that
   it is tried for, their type (asked for again at the top level), whether their type makes a
   failure count as ignored, what a handler asks for next after the results so
   far and with the current `fallback` (at most `limit` times), and what it
   makes of the results; and the two modes of the parser.
   */
  datatype Env = Env(
    scheme: string -> Scheme,
    videosite: string -> Option<Result>,
    classify: (string, bool) -> Class,
    ignoredAfterwards: string -> bool,
    next: (string, seq<Result>, bool) -> Option<Link>,
    limit: string -> nat,
    verdict: (string, seq<Result>) -> Result,
    recurse: bool,
    disableUnsafe: bool)

  /**
   A finished call: the level it was entered and left with, its result, whether
   it took the return for unsafe types, and, if a handler ran, the calls it made.
   */
  datatype Call = Call(file: string, entry: nat, exit: nat, result: Result, refusedUnsafe: bool,
                       handled: bool, nested: seq<Call>)

  function Leaf(file: string, level: nat, result: Result): Call {
    Call(file, level, level, result, false, false, [])
  }

  function Results(calls: seq<Call>): seq<Result> {
    seq(|calls|, k requires 0 <= k < |calls| => calls[k].result)
  }

  /** How many handlers may still be nested. */
  function Room(level: nat): nat {
    if level > RECURSE_LEVEL_MAX then 0 else RECURSE_LEVEL_MAX + 1 - level
  }

  function ExitLevel(level: nat, calls: seq<Call>): nat {
    if calls == [] then level else calls[|calls| - 1].exit
  }

  /** With `fallback` the file itself is added. */
  function AddedOr(ret: Result, fallback: bool): Result {
    if fallback then Success else ret
  }

  /** After the handler: a success stands, and an ignored type is ignored. */
  function Conclude(env: Env, file: string, ret: Result, fallback: bool): Result {
    if ret == Success then Success
    else if env.ignoredAfterwards(file) then Ignored
    else AddedOr(ret, fallback)
  }

  /** What is left in `ret` for a dual file that is plain text, or that no handler is known for. */
  function Refused(plainText: bool): Result {
    if plainText then Ignored else Unhandled
  }

  function Handled(env: Env, file: string, level: nat, fallback: bool, calls: seq<Call>): (call: Call)
    requires ExitLevel(level + 1, calls) >= level + 1
  {
    var ret := Conclude(env, file, env.verdict(file, Results(calls)), fallback);
    Call(file, level, ExitLevel(level + 1, calls) - 1, ret, false, true, calls)
  }

  /**
   A call with `recurse_level` at `level`.  The return at 1794-1795 makes the
   test at 1875 true whenever it is reached.  What a failed video site left in
   `ret` stands only where nothing else sets it.  A refused dual type has been
   forgotten when types that are ignored afterwards are looked for.
   */
  function Parse(env: Env, file: string, level: nat, fallback: bool): (call: Call)
    ensures call.file == file && call.entry == level <= call.exit
    decreases Room(level), 1, 0
  {
    if level > RECURSE_LEVEL_MAX then Leaf(file, level, Error)
    else if env.scheme(file).Stream? then Leaf(file, level, Unhandled)
    else if env.scheme(file).Feed? then Leaf(file, level, env.scheme(file).result)
    else if !env.recurse && level > 0 then Leaf(file, level, Unhandled)
    else if env.videosite(file) == Some(Success) then Leaf(file, level, Success)
    else
      match env.classify(file, level == 0)
      case NoType => Leaf(file, level, Unhandled)
      case EmptyFile => Leaf(file, level, Success)
      case IgnoredType => Leaf(file, level, Ignored)
      case NotInTables => Leaf(file, level, Conclude(env, file, env.videosite(file).GetOr(Unhandled), fallback))
      case DualRefused(plainText) => Leaf(file, level, AddedOr(Refused(plainText), fallback))
      case Special(unsafe) =>
        if unsafe && env.disableUnsafe then Call(file, level, level + 1, Ignored, true, false, [])
        else Handled(env, file, level, fallback, Handle(env, file, level, level + 1, fallback, []))
      case DualHandled => Handled(env, file, level, fallback, Handle(env, file, level, level + 1, fallback, []))
  }

  /** The calls a handler makes, the first of them already made; `level` is the current `recurse_level`. */
  function Handle(env: Env, file: string, entry: nat, level: nat, fallback: bool, calls: seq<Call>): (all: seq<Call>)
    requires entry < level == ExitLevel(entry + 1, calls) && entry <= RECURSE_LEVEL_MAX
    ensures ExitLevel(entry + 1, all) >= level
    decreases Room(entry), 0, env.limit(file) - |calls|
  {
    if |calls| >= env.limit(file) then calls
    else
      match env.next(file, Results(calls), fallback)
      case None => calls
      case Some(link) =>
        var call := Parse(env, link.file, level, link.fallback);
        Handle(env, file, entry, call.exit, fallback, calls + [call])
  }

  lemma HandledUnfolds(env: Env, file: string, level: nat, fallback: bool)
    requires Parse(env, file, level, fallback).handled
    ensures level <= RECURSE_LEVEL_MAX
    ensures Parse(env, file, level, fallback).nested == Handle(env, file, level, level + 1, fallback, [])
  {
    hide Handle, Conclude, Results;
  }

  // ----- how deep handlers nest

  function Depth(call: Call): nat {
    if call.handled then 1 + Deepest(call.nested) else 0
  }

  function Deepest(calls: seq<Call>): nat {
    if calls == [] then 0
    else
      var (front, last) := (Deepest(calls[..|calls| - 1]), Depth(calls[|calls| - 1]));
      if last > front then last else front
  }

  lemma DeepestOfMore(calls: seq<Call>, call: Call)
    ensures Deepest(calls + [call]) == if Depth(call) > Deepest(calls) then Depth(call) else Deepest(calls)
  {
    hide Depth;
    assert (calls + [call])[..|calls|] == calls;
  }

  /** From level `level` at most `Room(level)` handlers are nested: five from the start, over any playlists. */
  lemma {:induction false} DepthIsBounded(env: Env, file: string, level: nat, fallback: bool)
    ensures Depth(Parse(env, file, level, fallback)) <= Room(level)
    decreases Room(level), 1, 0
  {
    hide Handle, Conclude, Results;
    if level <= RECURSE_LEVEL_MAX && Parse(env, file, level, fallback).handled {
      HandleIsBounded(env, file, level, level + 1, fallback, []);
    }
  }

  lemma {:induction false} HandleIsBounded(env: Env, file: string, entry: nat, level: nat, fallback: bool,
          calls: seq<Call>)
    requires entry < level == ExitLevel(entry + 1, calls) && entry <= RECURSE_LEVEL_MAX
    requires Deepest(calls) < Room(entry)
    ensures Deepest(Handle(env, file, entry, level, fallback, calls)) < Room(entry)
    decreases Room(entry), 0, env.limit(file) - |calls|
  {
    hide Parse, Depth, Deepest, Results;
    if |calls| < env.limit(file) && env.next(file, Results(calls), fallback).Some? {
      var link := env.next(file, Results(calls), fallback).value;
      var call := Parse(env, link.file, level, link.fallback);
      DepthIsBounded(env, link.file, level, link.fallback);
      DeepestOfMore(calls, call);
      HandleIsBounded(env, file, entry, call.exit, fallback, calls + [call]);
    }
  }

  /** A playlist that names itself. */
  ghost predicate NamesItself(env: Env, file: string) {
    && env.recurse && env.scheme(file) == Other && env.videosite(file) != Some(Success)
    && (forall top: bool :: env.classify(file, top) == Special(false))
    && env.limit(file) >= 1
    && forall fallback: bool :: env.next(file, [], fallback) == Some(Link(file, fallback))
  }

  lemma {:induction false} HandleKeepsCalls(env: Env, file: string, entry: nat, level: nat, fallback: bool,
          calls: seq<Call>)
    requires entry < level == ExitLevel(entry + 1, calls) && entry <= RECURSE_LEVEL_MAX
    ensures calls <= Handle(env, file, entry, level, fallback, calls)
    decreases env.limit(file) - |calls|
  {
    hide Parse, Results;
    if |calls| < env.limit(file) && env.next(file, Results(calls), fallback).Some? {
      var link := env.next(file, Results(calls), fallback).value;
      var call := Parse(env, link.file, level, link.fallback);
      HandleKeepsCalls(env, file, entry, call.exit, fallback, calls + [call]);
    }
  }

  lemma FirstCall(env: Env, file: string, level: nat, fallback: bool)
    requires NamesItself(env, file) && level <= RECURSE_LEVEL_MAX
    ensures var calls := Handle(env, file, level, level + 1, fallback, []);
            calls != [] && calls[0] == Parse(env, file, level + 1, fallback)
  {
    hide Parse;
    assert Results([]) == [];
    var call := Parse(env, file, level + 1, fallback);
    assert [] + [call] == [call];
    HandleKeepsCalls(env, file, level, call.exit, fallback, [call]);
  }

  lemma {:induction false} DeepestIsDeep(calls: seq<Call>, k: nat)
    requires k < |calls|
    ensures Deepest(calls) >= Depth(calls[k])
    decreases |calls|
  {
    hide Depth;
    if k < |calls| - 1 {
      DeepestIsDeep(calls[..|calls| - 1], k);
    }
  }

  /** The bound is met by a playlist that names itself. */
  lemma {:induction false} SelfReferenceFillsTheRoom(env: Env, file: string, level: nat, fallback: bool)
    requires NamesItself(env, file)
    ensures Depth(Parse(env, file, level, fallback)) == Room(level)
    decreases Room(level)
  {
    hide Handle, Conclude, Results;
    DepthIsBounded(env, file, level, fallback);
    if level <= RECURSE_LEVEL_MAX {
      SelfReferenceFillsTheRoom(env, file, level + 1, fallback);
      FirstCall(env, file, level, fallback);
      var calls := Handle(env, file, level, level + 1, fallback, []);
      DeepestIsDeep(calls, 0);
    }
  }

  lemma {:induction false} NoNestedHandlers(env: Env, file: string, level: nat, fallback: bool, calls: seq<Call>)
    requires !env.recurse && 0 < level == ExitLevel(1, calls)
    requires Deepest(calls) == 0
    ensures Deepest(Handle(env, file, 0, level, fallback, calls)) == 0
    decreases env.limit(file) - |calls|
  {
    hide Deepest, Results, Conclude;
    if |calls| < env.limit(file) && env.next(file, Results(calls), fallback).Some? {
      var link := env.next(file, Results(calls), fallback).value;
      var call := Parse(env, link.file, level, link.fallback);
      DeepestOfMore(calls, call);
      NoNestedHandlers(env, file, call.exit, fallback, calls + [call]);
    }
  }

  /** Without recursion only the file that was asked for is handled. */
  lemma {:induction false} NoRecursionNoDepth(env: Env, file: string, fallback: bool)
    requires !env.recurse
    ensures Depth(Parse(env, file, 0, fallback)) <= 1
  {
    hide Handle, Conclude, Results;
    if Parse(env, file, 0, fallback).handled {
      NoNestedHandlers(env, file, 1, fallback, []);
    }
  }

  // ----- what happens to the level

  /** How many calls inside took the return for unsafe types. */
  function UnsafeReturns(call: Call): nat {
    (if call.refusedUnsafe then 1 else 0) + AllUnsafeReturns(call.nested)
  }

  function AllUnsafeReturns(calls: seq<Call>): nat {
    if calls == [] then 0 else AllUnsafeReturns(calls[..|calls| - 1]) + UnsafeReturns(calls[|calls| - 1])
  }

  lemma NoUnsafeReturns()
    ensures AllUnsafeReturns([]) == 0
  {
  }

  lemma UnsafeReturnsOfMore(calls: seq<Call>, call: Call)
    ensures AllUnsafeReturns(calls + [call]) == AllUnsafeReturns(calls) + UnsafeReturns(call)
  {
    hide UnsafeReturns;
    assert (calls + [call])[..|calls|] == calls;
  }

  lemma NoCallsYet(level: nat)
    ensures ExitLevel(level, []) == level
  {
  }

  lemma HandledFields(env: Env, file: string, level: nat, fallback: bool, calls: seq<Call>)
    requires ExitLevel(level + 1, calls) >= level + 1
    ensures var call := Handled(env, file, level, fallback, calls);
            call.handled && !call.refusedUnsafe && call.nested == calls && call.exit == ExitLevel(level + 1, calls) - 1
  {
    hide Conclude, Results, ExitLevel;
  }

  /** What the level comes to with and without a handler. */
  lemma ExitOf(env: Env, file: string, level: nat, fallback: bool)
    ensures var call := Parse(env, file, level, fallback);
            if call.handled then call.exit == ExitLevel(level + 1, call.nested) - 1 && !call.refusedUnsafe
            else call.exit == (level + if call.refusedUnsafe then 1 else 0) && call.nested == []
  {
    hide Handle, Handled, Conclude, Results, ExitLevel;
    if level <= RECURSE_LEVEL_MAX {
      NoCallsYet(level + 1);
      HandledFields(env, file, level, fallback, Handle(env, file, level, level + 1, fallback, []));
    }
  }

  /**
   The level on exit is the level on entry and one for each refused unsafe file
   inside, so it is the same if and only if there was none.
   */
  lemma {:induction false} LevelCountsUnsafeReturns(env: Env, file: string, level: nat, fallback: bool)
    ensures Parse(env, file, level, fallback).exit == level + UnsafeReturns(Parse(env, file, level, fallback))
    decreases Room(level), 1, 0
  {
    hide Handle, Parse;
    ExitOf(env, file, level, fallback);
    NoUnsafeReturns();
    if Parse(env, file, level, fallback).handled {
      HandledUnfolds(env, file, level, fallback);
      HandleCountsUnsafeReturns(env, file, level, level + 1, fallback, []);
    }
  }

  lemma {:induction false} HandleCountsUnsafeReturns(env: Env, file: string, entry: nat, level: nat, fallback: bool,
                                                     calls: seq<Call>)
    requires entry < level == ExitLevel(entry + 1, calls) && entry <= RECURSE_LEVEL_MAX
    requires level == entry + 1 + AllUnsafeReturns(calls)
    ensures var all := Handle(env, file, entry, level, fallback, calls);
            ExitLevel(entry + 1, all) == entry + 1 + AllUnsafeReturns(all)
    decreases Room(entry), 0, env.limit(file) - |calls|
  {
    hide Parse, UnsafeReturns, AllUnsafeReturns, Results;
    if |calls| < env.limit(file) && env.next(file, Results(calls), fallback).Some? {
      var link := env.next(file, Results(calls), fallback).value;
      var call := Parse(env, link.file, level, link.fallback);
      LevelCountsUnsafeReturns(env, link.file, level, link.fallback);
      UnsafeReturnsOfMore(calls, call);
      HandleCountsUnsafeReturns(env, file, entry, call.exit, fallback, calls + [call]);
    }
  }

  /** With unsafe types allowed the level always comes back. */
  lemma {:induction false} LevelIsRestored(env: Env, file: string, level: nat, fallback: bool)
    requires !env.disableUnsafe
    ensures Parse(env, file, level, fallback).exit == level
    decreases Room(level), 1, 0
  {
    hide Handle, Conclude, Results;
    if level <= RECURSE_LEVEL_MAX && Parse(env, file, level, fallback).handled {
      HandleRestores(env, file, level, fallback, []);
    }
  }

  lemma {:induction false} HandleRestores(env: Env, file: string, entry: nat, fallback: bool, calls: seq<Call>)
    requires !env.disableUnsafe
    requires ExitLevel(entry + 1, calls) == entry + 1 && entry <= RECURSE_LEVEL_MAX
    ensures ExitLevel(entry + 1, Handle(env, file, entry, entry + 1, fallback, calls)) == entry + 1
    decreases Room(entry), 0, env.limit(file) - |calls|
  {
    hide Parse, Results;
    if |calls| < env.limit(file) && env.next(file, Results(calls), fallback).Some? {
      var link := env.next(file, Results(calls), fallback).value;
      LevelIsRestored(env, link.file, entry + 1, link.fallback);
      HandleRestores(env, file, entry, fallback, calls + [Parse(env, link.file, entry + 1, link.fallback)]);
    }
  }

  // ----- what the unsafe returns cost

  /** Each call was entered one level below the handler and one more for each refused unsafe file before it. */
  ghost predicate EnteredByCount(entry: nat, calls: seq<Call>) {
    forall k :: 0 <= k < |calls| ==> calls[k].entry == entry + 1 + AllUnsafeReturns(calls[..k])
  }

  lemma {:induction false} HandleEntersByCount(env: Env, file: string, entry: nat, level: nat, fallback: bool,
                                               calls: seq<Call>)
    requires entry < level == ExitLevel(entry + 1, calls) && entry <= RECURSE_LEVEL_MAX
    requires level == entry + 1 + AllUnsafeReturns(calls) && EnteredByCount(entry, calls)
    ensures EnteredByCount(entry, Handle(env, file, entry, level, fallback, calls))
    decreases env.limit(file) - |calls|
  {
    hide Parse, UnsafeReturns, AllUnsafeReturns, Results;
    if |calls| < env.limit(file) && env.next(file, Results(calls), fallback).Some? {
      var link := env.next(file, Results(calls), fallback).value;
      var call := Parse(env, link.file, level, link.fallback);
      LevelCountsUnsafeReturns(env, link.file, level, link.fallback);
      UnsafeReturnsOfMore(calls, call);
      assert (calls + [call])[..|calls|] == calls;
      assert forall k :: 0 <= k < |calls| ==> (calls + [call])[..k] == calls[..k];
      HandleEntersByCount(env, file, entry, call.exit, fallback, calls + [call]);
    }
  }

  /**
   A file that a handler asks for is refused as too deep exactly when the level
   of the handler's own file and the unsafe files refused before it inside that
   handler make up at least the allowed depth.
   */
  lemma RefusedAsTooDeepIff(env: Env, file: string, level: nat, fallback: bool, k: nat)
    requires level <= RECURSE_LEVEL_MAX
    requires Parse(env, file, level, fallback).handled && k < |Parse(env, file, level, fallback).nested|
    ensures var calls := Parse(env, file, level, fallback).nested;
            calls[k].entry > RECURSE_LEVEL_MAX <==> level + AllUnsafeReturns(calls[..k]) >= RECURSE_LEVEL_MAX
  {
    hide Handle, Parse, AllUnsafeReturns;
    HandledUnfolds(env, file, level, fallback);
    NoUnsafeReturns();
    HandleEntersByCount(env, file, level, level + 1, fallback, []);
    assert EnteredByCount(level, Parse(env, file, level, fallback).nested);
  }

  // ----- the same by what the files are

  /** A handler that asks for these files in order, whatever comes of them. */
  ghost predicate Asks(env: Env, file: string, files: seq<string>) {
    && env.limit(file) >= |files|
    && forall results: seq<Result>, fallback: bool ::
         var link := env.next(file, results, fallback);
         |results| < |files| ==> link.Some? && link.value.file == files[|results|]
  }

  /** A file that a handler asks for is decided without a handler of its own. */
  predicate Unparsed(env: Env, file: string) {
    || env.scheme(file) != Other || !env.recurse || env.videosite(file) == Some(Success)
    || match env.classify(file, false)
       case Special(unsafe) => unsafe && env.disableUnsafe
       case DualHandled => false
       case _ => true
  }

  /** It is looked at, and refused for its unsafe type. */
  predicate IsRefusedUnsafe(env: Env, file: string) {
    && env.scheme(file) == Other && env.recurse && env.videosite(file) != Some(Success)
    && env.classify(file, false) == Special(true) && env.disableUnsafe
  }

  function UnsafeAmong(env: Env, files: seq<string>): nat {
    if files == [] then 0
    else UnsafeAmong(env, files[..|files| - 1]) + if IsRefusedUnsafe(env, files[|files| - 1]) then 1 else 0
  }

  lemma UnsafeAmongMore(env: Env, files: seq<string>, m: nat)
    requires m < |files|
    ensures UnsafeAmong(env, files[..m + 1]) == UnsafeAmong(env, files[..m]) + if IsRefusedUnsafe(env, files[m])
            then 1 else 0
  {
    assert files[..m + 1][..m] == files[..m];
  }

  /** The level behind `unsafe` such files: too deep is as deep as it gets. */
  function LevelBehind(entry: nat, unsafe: nat): nat {
    if entry + unsafe >= RECURSE_LEVEL_MAX then RECURSE_LEVEL_MAX + 1 else entry + 1 + unsafe
  }

  lemma UnparsedLevel(env: Env, file: string, level: nat, fallback: bool)
    requires Unparsed(env, file) && level > 0
    ensures Parse(env, file, level, fallback).exit ==
            level + if level <= RECURSE_LEVEL_MAX && IsRefusedUnsafe(env, file) then 1 else 0
  {
    hide Handle, Conclude;
  }

  lemma TooDeepIsError(env: Env, file: string, level: nat, fallback: bool)
    ensures level > RECURSE_LEVEL_MAX ==> Parse(env, file, level, fallback).result == Error
  {
  }

  lemma {:induction false} HandleAsks(env: Env, file: string, entry: nat, level: nat, fallback: bool, calls: seq<Call>,
                                      files: seq<string>, k: nat)
    requires entry < level == ExitLevel(entry + 1, calls) && entry <= RECURSE_LEVEL_MAX
    requires Asks(env, file, files) && |calls| <= k < |files|
             && level == LevelBehind(entry, UnsafeAmong(env, files[..|calls|]))
    requires forall j :: 0 <= j < k ==> Unparsed(env, files[j])
    ensures var all := Handle(env, file, entry, level, fallback, calls);
            && k < |all| && all[k].file == files[k]
            && all[k].entry == LevelBehind(entry, UnsafeAmong(env, files[..k]))
            && (all[k].entry > RECURSE_LEVEL_MAX ==> all[k].result == Error)
    decreases k - |calls|
  {
    hide Parse, UnsafeAmong, Unparsed, IsRefusedUnsafe;
    var m := |calls|;
    assert |Results(calls)| == m;
    var link := env.next(file, Results(calls), fallback).value;
    var call := Parse(env, files[m], level, link.fallback);
    assert Handle(env, file, entry, level, fallback, calls)
        == Handle(env, file, entry, call.exit, fallback, calls + [call]);
    if m == k {
      HandleKeepsCalls(env, file, entry, call.exit, fallback, calls + [call]);
      TooDeepIsError(env, files[m], level, link.fallback);
    } else {
      UnparsedLevel(env, files[m], level, link.fallback);
      UnsafeAmongMore(env, files, m);
      HandleAsks(env, file, entry, call.exit, fallback, calls + [call], files, k);
    }
  }

  /**
   The same in terms of the files alone: behind files that are decided without a
   handler, the next one is refused as too deep, whatever it is, exactly when the
   level and the number of unsafe files among them reach the allowed depth.
   */
  lemma TooDeepBehindUnsafeFilesIff(env: Env, file: string, level: nat, fallback: bool, files: seq<string>, k: nat)
    requires level <= RECURSE_LEVEL_MAX && Parse(env, file, level, fallback).handled
    requires Asks(env, file, files) && k < |files| && forall j :: 0 <= j < k ==> Unparsed(env, files[j])
    ensures var calls := Parse(env, file, level, fallback).nested;
            && k < |calls| && calls[k].file == files[k]
            && (calls[k].entry > RECURSE_LEVEL_MAX <==> level + UnsafeAmong(env, files[..k]) >= RECURSE_LEVEL_MAX)
            && (level + UnsafeAmong(env, files[..k]) >= RECURSE_LEVEL_MAX ==> calls[k].result == Error)
  {
    hide Handle, Parse, Unparsed, IsRefusedUnsafe;
    HandledUnfolds(env, file, level, fallback);
    assert files[..0] == [];
    HandleAsks(env, file, level, level + 1, fallback, [], files, k);
  }

  // ----- an example

  const UNSAFE := "unsafe.desktop"

  /** A playlist that names four desktop files and then another playlist. */
  function Listing(): Env {
    Env(_ => Other, _ => None,
        (file, _) => Special(file == UNSAFE),
        _ => false,
        (file, results, fallback) =>
          if file == "list" && |results| < 4 then Some(Link(UNSAFE, fallback))
          else if file == "list" then Some(Link("songs", fallback))
          else None,
        file => if file == "list" then 5 else 0,
        (_, _) => Success,
        true, true)
  }

  lemma ListingIsHandled()
    ensures Parse(Listing(), "list", 0, false).handled
    ensures Parse(Listing(), "list", 0, false).nested == Handle(Listing(), "list", 0, 1, false, [])
  {
    hide Handle, Results;
  }

  lemma SongsAreHandled()
    ensures Parse(Listing(), "songs", 1, false).result == Success
  {
    assert Handle(Listing(), "songs", 1, 2, false, []) == [];
  }

  /** The handler of that playlist is such a handler, and its first four files are refused as unsafe. */
  lemma ListingAsks()
    ensures Asks(Listing(), "list", [UNSAFE, UNSAFE, UNSAFE, UNSAFE, "songs"])
    ensures Unparsed(Listing(), UNSAFE) && IsRefusedUnsafe(Listing(), UNSAFE)
  {
    var files := [UNSAFE, UNSAFE, UNSAFE, UNSAFE, "songs"];
    assert forall i :: 0 <= i < 5 ==> files[i] == if i < 4 then UNSAFE else "songs";
    forall results: seq<Result>, fallback: bool
      ensures var link := Listing().next("list", results, fallback);
              |results| < 5 ==> link.Some? && link.value.file == files[|results|]
    {
    }
  }

  lemma NoneUnsafe()
    ensures UnsafeAmong(Listing(), []) == 0
  {
  }

  lemma FourUnsafe()
    ensures UnsafeAmong(Listing(), [UNSAFE, UNSAFE, UNSAFE, UNSAFE]) == 4
  {
    hide IsRefusedUnsafe, UnsafeAmong;
    var files := [UNSAFE, UNSAFE, UNSAFE, UNSAFE];
    ListingAsks();
    NoneUnsafe();
    assert files[..0] == [] && files[..4] == files;
    UnsafeAmongMore(Listing(), files, 0);
    UnsafeAmongMore(Listing(), files, 1);
    UnsafeAmongMore(Listing(), files, 2);
    UnsafeAmongMore(Listing(), files, 3);
  }

  lemma {:induction false} HandleStaysInLimit(env: Env, file: string, entry: nat, level: nat, fallback: bool,
          calls: seq<Call>)
    requires entry < level == ExitLevel(entry + 1, calls) && entry <= RECURSE_LEVEL_MAX && |calls| <= env.limit(file)
    ensures |Handle(env, file, entry, level, fallback, calls)| <= env.limit(file)
    decreases env.limit(file) - |calls|
  {
    hide Parse, Results;
    if |calls| < env.limit(file) && env.next(file, Results(calls), fallback).Some? {
      var link := env.next(file, Results(calls), fallback).value;
      var call := Parse(env, link.file, level, link.fallback);
      HandleStaysInLimit(env, file, entry, call.exit, fallback, calls + [call]);
    }
  }

  /** The playlist is handled when asked for at that place, but refused as too deep after four unsafe files. */
  lemma UnsafeFilesHideLaterOnes()
    ensures Parse(Listing(), "songs", 1, false).result == Success
    ensures var calls := Parse(Listing(), "list", 0, false).nested;
            |calls| == 5 && calls[4].file == "songs" && calls[4].result == Error
  {
    hide Handle, Parse, Asks, Unparsed, IsRefusedUnsafe, UnsafeAmong;
    var files := [UNSAFE, UNSAFE, UNSAFE, UNSAFE, "songs"];
    ListingAsks();
    FourUnsafe();
    assert files[..4] == [UNSAFE, UNSAFE, UNSAFE, UNSAFE];
    ListingIsHandled();
    TooDeepBehindUnsafeFilesIff(Listing(), "list", 0, false, files, 4);
    HandleStaysInLimit(Listing(), "list", 0, 1, false, []);
    SongsAreHandled();
  }

  // ----- the imperative form

  /** `IdolPlParseData`, as far as the guard uses it. */
  class ParseData {
    var recurseLevel: nat
    var fallback: bool

    constructor (fallback: bool)
      ensures recurseLevel == 0 && this.fallback == fallback
    {
      this.recurseLevel, this.fallback := 0, fallback;
    }

    method ParseInternal(env: Env, file: string) returns (ret: Result, ghost call: Call)
      modifies this
      ensures call == Parse(env, file, old(recurseLevel), old(fallback))
      ensures ret == call.result && recurseLevel == call.exit && fallback == old(fallback)
      decreases Room(recurseLevel), 1, 0
    {
      hide Handle, Results, ExitLevel;
      call := Parse(env, file, recurseLevel, fallback);
      if recurseLevel > RECURSE_LEVEL_MAX {
        return Error, call;
      }
      if env.scheme(file).Stream? {
        return Unhandled, call;
      }
      if env.scheme(file).Feed? {
        return env.scheme(file).result, call;
      }
      if !env.recurse && recurseLevel > 0 {
        return Unhandled, call;
      }
      ret := Unhandled;
      var site := env.videosite(file);
      if site.Some? {
        ret := site.value;
        if ret == Success {
          return ret, call;
        }
      }
      var contentClass := env.classify(file, recurseLevel == 0);
      if contentClass.NoType? {
        return Unhandled, call;
      }
      if contentClass.EmptyFile? {
        return Success, call;
      }
      if contentClass.IgnoredType? {
        return Ignored, call;
      }
      var typeKnown := true;
      recurseLevel := recurseLevel + 1;
      if contentClass.Special? {
        if env.disableUnsafe && contentClass.unsafe {
          return Ignored, call;
        }
        ret := Func(env, file, recurseLevel - 1);
      } else if contentClass.DualHandled? {
        ret := Func(env, file, recurseLevel - 1);
      } else if contentClass.DualRefused? {
        ret := Refused(contentClass.plainText);
        typeKnown := false;
      }
      recurseLevel := recurseLevel - 1;
      if ret == Success {
        return ret, call;
      }
      if typeKnown && env.ignoredAfterwards(file) {
        return Ignored, call;
      }
      if fallback {
        return Success, call;
      }
    }

    /** A handler: it asks for files one after the other. */
    method Func(env: Env, file: string, entry: nat) returns (ret: Result)
      requires recurseLevel == entry + 1 && entry <= RECURSE_LEVEL_MAX
      modifies this
      ensures var calls := Handle(env, file, entry, entry + 1, old(fallback), []);
              ret == env.verdict(file, Results(calls)) && recurseLevel == ExitLevel(entry + 1, calls)
      ensures fallback == old(fallback)
      decreases Room(entry), 0, 0
    {
      hide Parse;
      var saved := fallback;
      var results: seq<Result> := [];
      ghost var calls: seq<Call> := [];
      assert Results([]) == [];
      while |results| < env.limit(file)
        invariant fallback == saved && results == Results(calls)
        invariant recurseLevel == ExitLevel(entry + 1, calls) > entry
        invariant Handle(env, file, entry, recurseLevel, saved, calls) == Handle(env, file, entry, entry + 1, saved, [])
        decreases env.limit(file) - |results|
      {
        var link := env.next(file, results, saved);
        if link == None {
          break;
        }
        fallback := link.value.fallback;
        ghost var call;
        var result;
        result, call := ParseInternal(env, link.value.file);
        fallback := saved;
        results := results + [result];
        calls := calls + [call];
        assert results == Results(calls);
      }
      ret := env.verdict(file, results);
    }
  }
}
