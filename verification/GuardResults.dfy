/**
 When a guarded call has which result (plparse/idol-pl-parser.c:1751-1969),
 read off its scheme, its type, the modes of the parser and what its handler
 made of it.
 */
module GuardResults {
  import opened CText
  import opened ParseGuard

  /** The file's type is asked for: nothing before has decided the call. */
  predicate IsClassified(env: Env, file: string, level: nat) {
    && level <= 4 && env.scheme(file) == Other && (env.recurse || level == 0)
    && env.videosite(file) != Some(Success)
  }

  /** A file of a feed scheme that is not too deep has the result of its own handler. */
  predicate IsFeedWith(env: Env, file: string, level: nat, r: Result) {
    level <= 4 && env.scheme(file) == Feed(r)
  }

  /** The return for unsafe types is taken. */
  predicate IsRefused(env: Env, file: string, level: nat) {
    var c := env.classify(file, level == 0);
    IsClassified(env, file, level) && c.Special? && c.unsafe && env.disableUnsafe
  }

  predicate IsHandled(env: Env, file: string, level: nat) {
    var c := env.classify(file, level == 0);
    IsClassified(env, file, level) && (c.DualHandled? || (c.Special? && !(c.unsafe && env.disableUnsafe)))
  }

  /** A handler runs and the unsafe return is taken exactly for these files. */
  lemma HandledAndRefusedIff(env: Env, file: string, level: nat, fallback: bool)
    ensures Parse(env, file, level, fallback).handled <==> IsHandled(env, file, level)
    ensures Parse(env, file, level, fallback).refusedUnsafe <==> IsRefused(env, file, level)
  {
    hide Handle, Handled, Conclude, Results, ExitLevel;
    if level <= 4 {
      NoCallsYet(level + 1);
      HandledFields(env, file, level, fallback, Handle(env, file, level, level + 1, fallback, []));
    }
  }

  /** What a handler, the video site code or a refused dual type has left as the result, if they were reached. */
  function Left(env: Env, file: string, call: Call): Option<Result> {
    if !IsClassified(env, file, call.entry) then None
    else if call.handled then Some(env.verdict(file, Results(call.nested)))
    else
      match env.classify(file, call.entry == 0)
      case NotInTables => if env.videosite(file).Some? then env.videosite(file) else Some(Unhandled)
      case DualRefused(plainText) => Some(if plainText then Ignored else Unhandled)
      case _ => None
  }

  /** A failure counts as ignored because of its type, which a refused dual file no longer has. */
  predicate IsIgnorable(env: Env, file: string, level: nat) {
    env.ignoredAfterwards(file) && !env.classify(file, level == 0).DualRefused?
  }

  /** A failure stands: the file is not added in its place, and its type is not ignored. */
  predicate Stands(env: Env, file: string, level: nat, fallback: bool) {
    !fallback && !IsIgnorable(env, file, level)
  }

  /**
   A success stands.  A failure of an ignored type is ignored, even with
   `fallback`; any other failure is a success with it, because the file is added.
   */
  lemma ResultIff(env: Env, file: string, level: nat, fallback: bool)
    ensures var call := Parse(env, file, level, fallback);
            var (left, kind) := (Left(env, file, call), env.classify(file, level == 0));
            var classified := IsClassified(env, file, level);
            && (call.result == Success <==>
                  || IsFeedWith(env, file, level, Success)
                  || (level <= 4 && env.scheme(file) == Other && (env.recurse || level == 0)
                      && env.videosite(file) == Some(Success))
                  || (classified && kind == EmptyFile)
                  || left == Some(Success)
                  || (left.Some? && fallback && !IsIgnorable(env, file, level)))
            && (call.result == Ignored <==>
                  || IsFeedWith(env, file, level, Ignored)
                  || (classified && kind == IgnoredType) || IsRefused(env, file, level)
                  || (left.Some? && left != Some(Success) && IsIgnorable(env, file, level))
                  || (left == Some(Ignored) && Stands(env, file, level, fallback)))
            && (call.result == Error <==>
                  || level > 4 || IsFeedWith(env, file, level, Error)
                  || (left == Some(Error) && Stands(env, file, level, fallback)))
            && (call.result == Unhandled <==>
                  || (level <= 4 && env.scheme(file) == Stream) || IsFeedWith(env, file, level, Unhandled)
                  || (0 < level <= 4 && env.scheme(file) == Other && !env.recurse)
                  || (classified && kind == NoType)
                  || (left == Some(Unhandled) && Stands(env, file, level, fallback)))
            && (call.result == Cancelled <==>
                  || IsFeedWith(env, file, level, Cancelled)
                  || (left == Some(Cancelled) && Stands(env, file, level, fallback)))
  {
    hide Handle, Results, ExitLevel;
    if level <= 4 {
      NoCallsYet(level + 1);
      HandledFields(env, file, level, fallback, Handle(env, file, level, level + 1, fallback, []));
    }
  }

  // ----- what a handler asks for

  /** Call `k` is the one that the handler asked for after the results before it, from the level they left. */
  ghost predicate IsAskedFor(env: Env, file: string, entry: nat, fallback: bool, calls: seq<Call>, k: nat)
    requires k < |calls|
  {
    var asked := env.next(file, Results(calls[..k]), fallback);
    && k < env.limit(file) && asked.Some?
    && calls[k] == Parse(env, asked.value.file, ExitLevel(entry + 1, calls[..k]), asked.value.fallback)
  }

  ghost predicate AreAskedFor(env: Env, file: string, entry: nat, fallback: bool, calls: seq<Call>) {
    forall k :: 0 <= k < |calls| ==> IsAskedFor(env, file, entry, fallback, calls, k)
  }

  predicate AsksForNoMore(env: Env, file: string, fallback: bool, calls: seq<Call>) {
    |calls| >= env.limit(file) || env.next(file, Results(calls), fallback) == None
  }

  lemma AskedForOneMore(env: Env, file: string, entry: nat, fallback: bool, calls: seq<Call>, call: Call)
    requires AreAskedFor(env, file, entry, fallback, calls) && |calls| < env.limit(file)
    requires var asked := env.next(file, Results(calls), fallback);
             asked.Some? && call == Parse(env, asked.value.file, ExitLevel(entry + 1, calls), asked.value.fallback)
    ensures AreAskedFor(env, file, entry, fallback, calls + [call])
  {
    hide Parse, Results, ExitLevel;
    var more := calls + [call];
    assert more[..|calls|] == calls;
    forall k | 0 <= k < |more|
      ensures IsAskedFor(env, file, entry, fallback, more, k)
    {
      if k < |calls| {
        assert more[..k] == calls[..k];
        assert IsAskedFor(env, file, entry, fallback, calls, k);
      }
    }
  }

  lemma {:induction false} HandleAsks(env: Env, file: string, entry: nat, level: nat, fallback: bool, calls: seq<Call>)
    requires entry < level == ExitLevel(entry + 1, calls) && entry <= RECURSE_LEVEL_MAX
    requires AreAskedFor(env, file, entry, fallback, calls)
    ensures var all := Handle(env, file, entry, level, fallback, calls);
            AreAskedFor(env, file, entry, fallback, all) && AsksForNoMore(env, file, fallback, all)
    decreases env.limit(file) - |calls|
  {
    hide Parse, Results, AreAskedFor;
    if |calls| < env.limit(file) && env.next(file, Results(calls), fallback).Some? {
      var link := env.next(file, Results(calls), fallback).value;
      var call := Parse(env, link.file, level, link.fallback);
      AskedForOneMore(env, file, entry, fallback, calls, call);
      HandleAsks(env, file, entry, call.exit, fallback, calls + [call]);
    }
  }

  /**
   The calls inside a handled call are those that its handler asks for, each
   after the results of the ones before it, until it asks for no more.
   */
  lemma CallsAreAskedFor(env: Env, file: string, level: nat, fallback: bool)
    requires Parse(env, file, level, fallback).handled
    ensures var calls := Parse(env, file, level, fallback).nested;
            AreAskedFor(env, file, level, fallback, calls) && AsksForNoMore(env, file, fallback, calls)
  {
    hide Parse, Handle, AsksForNoMore, Results;
    HandledUnfolds(env, file, level, fallback);
    NoCallsYet(level + 1);
    HandleAsks(env, file, level, level + 1, fallback, []);
  }
}
