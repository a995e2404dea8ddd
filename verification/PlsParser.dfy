/**
 The PLS parser, `idol_pl_parser_add_pls_with_contents`
 (plparse/idol-pl-parser-pls.c:161-327), with `idol_pl_parser_add_uri`
 (plparse/idol-pl-parser.c:1320-1453) for the fields it passes.  The outside
 world is a parameter: conversion to UTF-8, making files from names, durations
 and the parsing of the files that are named.
 */
module PlsParser {
  import opened CText
  import opened PlsText
  import opened PlsScan

  /** What a nested `idol_pl_parser_parse_internal` is asked. */
  datatype Request = Request(target: string, base: Option<string>)

  /** How it leaves the world; it may change `fallback` at will. */
  datatype Reply<W> = Reply(success: bool, fallback: bool, world: W)

  datatype Env<!W> = Env(
    toUtf8: string -> Option<string>,
    commandLine: string -> string,
    child: string -> string,
    duration: string -> int,
    parse: (Request, bool, W) -> Reply<W>,
    file: string,
    base: string)

  datatype Step =
    | PlaylistStarted(file: string, fields: map<string, string>)
    | Nested(request: Request, fallback: bool, success: bool)
    | Added(uri: string, entry: map<string, string>)
    | PlaylistEnded(title: string)

  datatype State<W> = State(fallback: bool, world: W, steps: seq<Step>)

  // ----- the table of keys

  datatype Table = Table(values: map<string, string>, files: seq<string>)

  /** The key and value of a line that goes into the table. */
  function Pair(line: string): Option<(string, string)> {
    if IsEmptyLine(line) || line[0] == '#' || line[0] == '[' then None
    else
      match SplitPair(line)
      case None => None
      case Some(bits) => Some((Chug(bits.0), bits.1))
  }

  function AddLine(t: Table, line: string): Table {
    match Pair(line)
    case None => t
    case Some((key, value)) =>
      Table(t.values[Lower(key) := value], if HasPrefix(key, "file") then t.files + [Lower(key)] else t.files)
  }

  /** The table of the lines, and the keys of the lines that count as entries. */
  function Load(lines: seq<string>): Table {
    if lines == [] then Table(map[], []) else AddLine(Load(lines[..|lines| - 1]), lines[|lines| - 1])
  }

  lemma LoadOfMore(lines: seq<string>, line: string)
    ensures Load(lines + [line]) == AddLine(Load(lines), line)
  {
    hide AddLine;
    assert (lines + [line])[..|lines|] == lines;
  }

  lemma CountsLowerPrefix(key: string)
    ensures HasPrefix(key, "file") <==> "file" <= Lower(key)
  {
    assert Lower("file") == "file";
    if |key| >= 4 {
      assert Lower(key[..4]) == Lower(key)[..4];
    }
  }

  lemma AddLineIsCounted(t: Table, line: string)
    requires Counted(t.values, t.files)
    ensures Counted(AddLine(t, line).values, AddLine(t, line).files)
  {
    hide HasPrefix, Lower, SplitPair, Chug;
    if Pair(line).Some? {
      CountsLowerPrefix(Pair(line).value.0);
    }
  }

  lemma {:induction false} LoadIsCounted(lines: seq<string>)
    ensures Counted(Load(lines).values, Load(lines).files)
  {
    if lines != [] {
      LoadIsCounted(lines[..|lines| - 1]);
      AddLineIsCounted(Load(lines[..|lines| - 1]), lines[|lines| - 1]);
    }
  }

  method LoadTable(lines: seq<string>) returns (entries: map<string, string>, numEntries: nat)
    ensures entries == Load(lines).values && numEntries == |Load(lines).files|
  {
    hide SplitPair, Chug, Lower, HasPrefix;
    entries, numEntries := map[], 0;
    var i := 0;
    while i < |lines|
      invariant 0 <= i <= |lines|
      invariant entries == Load(lines[..i]).values && numEntries == |Load(lines[..i]).files|
    {
      var line := lines[i];
      assert lines[..i + 1][..i] == lines[..i];
      i := i + 1;
      if IsEmptyLine(line) {
        continue;
      }
      if line[0] == '#' || line[0] == '[' {
        continue;
      }
      var bits := SplitPair(line);
      if bits == None {
        continue;
      }
      var key := Chug(bits.value.0);
      if HasPrefix(key, "file") {
        numEntries := numEntries + 1;
      }
      entries := entries[Lower(key) := bits.value.1];
    }
    assert lines[..|lines|] == lines;
  }

  // ----- one entry

  function AddField(toUtf8: string -> Option<string>, fields: map<string, string>, name: string, value: Option<string>)
    : map<string, string>
  {
    if value.None? || value.value == "" then fields
    else
      match toUtf8(value.value)
      case None => fields
      case Some(s) => fields[name := if name == "title" then Chomp(s) else s]
  }

  function Lookup(table: map<string, string>, name: string, i: nat): Option<string>
    requires i < WRAP
  {
    if Key(name, i) in table then Some(table[Key(name, i)]) else None
  }

  predicate IsDirect(file: string) {
    Find(file, "://").Some? || (file != "" && file[0] == '/')
  }

  function RequestOf<W>(env: Env<W>, file: string): Request {
    if IsDirect(file) then Request(env.commandLine(file), None) else Request(env.child(file), Some(env.base))
  }

  /** The entry that is added for number `i`. */
  function EntryOf<W>(env: Env<W>, table: map<string, string>, i: nat, file: string): Step
    requires i < WRAP
  {
    var direct := IsDirect(file);
    var fields := AddField(env.toUtf8, map[], "url", if direct then Some(file) else None);
    var fields := AddField(env.toUtf8, fields, "title", Lookup(table, "title", i));
    var fields := AddField(env.toUtf8, fields, "genre", Lookup(table, "genre", i));
    var fields := AddField(env.toUtf8, fields, "duration", Lookup(table, "length", i));
    Added(if direct then file else env.child(file), fields["base" := env.base])
  }

  function LengthOf<W>(env: Env<W>, table: map<string, string>, i: nat): int
    requires i < WRAP
  {
    match Lookup(table, "length", i)
    case None => 0
    case Some(length) => env.duration(length)
  }

  /** The loop body for a counter value whose key is in the table. */
  function Handle<W>(env: Env<W>, recurse: bool, table: map<string, string>, i: nat, st: State<W>): State<W>
    requires i < WRAP && Key("file", i) in table
  {
    var file := table[Key("file", i)];
    var entry := EntryOf(env, table, i, file);
    if LengthOf(env, table, i) < 0 then st.(steps := st.steps + [entry])
    else
      var request := RequestOf(env, file);
      var fallback := st.fallback && !recurse;
      var reply := env.parse(request, fallback, st.world);
      var nested := Nested(request, fallback, reply.success);
      State(st.fallback, reply.world, st.steps + if reply.success then [nested] else [nested, entry])
  }

  function HandleAll<W>(env: Env<W>, recurse: bool, table: map<string, string>, hits: seq<nat>, st: State<W>)
    : State<W>
    requires forall a :: 0 <= a < |hits| ==> IsHit(table, hits[a])
  {
    if hits == [] then st
    else
      var last := hits[|hits| - 1];
      assert IsHit(table, last);
      Handle(env, recurse, table, Counter(last), HandleAll(env, recurse, table, hits[..|hits| - 1], st))
  }

  lemma HandleMore<W>(env: Env<W>, recurse: bool, table: map<string, string>, hits: seq<nat>, p: nat, st: State<W>)
    requires IsHit(table, p)
    requires forall a :: 0 <= a < |hits| ==> IsHit(table, hits[a])
    ensures HandleAll(env, recurse, table, hits + [p], st)
         == Handle(env, recurse, table, Counter(p), HandleAll(env, recurse, table, hits, st))
  {
    hide Handle, Key;
    assert (hits + [p])[..|hits|] == hits;
  }

  /** The steps that settle an entry: it was added, or parsed as a playlist. */
  function Outcomes(steps: seq<Step>): seq<Step> {
    if steps == [] then []
    else
      var last := steps[|steps| - 1];
      Outcomes(steps[..|steps| - 1]) + if last.Added? || (last.Nested? && last.success) then [last] else []
  }

  lemma OutcomesOfMore(steps: seq<Step>, last: Step)
    ensures Outcomes(steps + [last])
         == Outcomes(steps) + if last.Added? || (last.Nested? && last.success) then [last] else []
  {
    assert (steps + [last])[..|steps|] == steps;
  }

  /**
   `step` settles the key with counter value `i`: a nested parse of its file,
   which is tried only for a length that is not negative and, in recursive
   mode, without `fallback`, or else the entry with its fields.
   */
  ghost predicate Settles<W(!new)>(env: Env<W>, recurse: bool, table: map<string, string>, i: nat, step: Step)
    requires i < WRAP && Key("file", i) in table
  {
    var file := table[Key("file", i)];
    if step.Nested? then
      && step.success && step.request == RequestOf(env, file) && (recurse ==> !step.fallback)
      && LengthOf(env, table, i) >= 0 && exists w :: env.parse(step.request, step.fallback, w).success
    else step == EntryOf(env, table, i, file)
  }

  ghost predicate SettleInOrder<W(!new)>(env: Env<W>, recurse: bool, table: map<string, string>, hits: seq<nat>,
                                          outcomes: seq<Step>) {
    && |outcomes| == |hits|
    && forall a :: 0 <= a < |hits| ==>
         && IsHit(table, hits[a])
         && Settles(env, recurse, table, Counter(hits[a]), outcomes[a])
  }

  lemma HandleSettles<W(!new)>(env: Env<W>, recurse: bool, table: map<string, string>, i: nat, st: State<W>)
    returns (outcome: Step)
    requires i < WRAP && Key("file", i) in table
    ensures Outcomes(Handle(env, recurse, table, i, st).steps) == Outcomes(st.steps) + [outcome]
    ensures Settles(env, recurse, table, i, outcome)
    ensures Handle(env, recurse, table, i, st).fallback == st.fallback
  {
    hide Outcomes, AddField, Lookup, Key, RequestOf;
    var file := table[Key("file", i)];
    var entry := EntryOf(env, table, i, file);
    if LengthOf(env, table, i) < 0 {
      outcome := entry;
      OutcomesOfMore(st.steps, entry);
    } else {
      var request, fallback := RequestOf(env, file), st.fallback && !recurse;
      var reply := env.parse(request, fallback, st.world);
      var nested := Nested(request, fallback, reply.success);
      OutcomesOfMore(st.steps, nested);
      if reply.success {
        outcome := nested;
      } else {
        outcome := entry;
        assert st.steps + [nested, entry] == st.steps + [nested] + [entry];
        OutcomesOfMore(st.steps + [nested], entry);
      }
    }
  }

  lemma NothingToHandle<W>(env: Env<W>, recurse: bool, table: map<string, string>, st: State<W>)
    ensures HandleAll(env, recurse, table, [], st) == st
  {
  }

  /**
   Each key that is met gives exactly one successful nested parse or one added
   entry, of its own file and fields and in the order of the keys, and
   `fallback` is what it was, whatever the nested parses did to it.
   */
  lemma {:induction false} EachKeyIsSettledOnce<W(!new)>(env: Env<W>, recurse: bool, table: map<string, string>,
                                                   hits: seq<nat>, st: State<W>)
    returns (outcomes: seq<Step>)
    requires forall a :: 0 <= a < |hits| ==> IsHit(table, hits[a])
    ensures Outcomes(HandleAll(env, recurse, table, hits, st).steps) == Outcomes(st.steps) + outcomes
    ensures SettleInOrder(env, recurse, table, hits, outcomes)
    ensures HandleAll(env, recurse, table, hits, st).fallback == st.fallback
    decreases |hits|
  {
    hide Outcomes, Handle, Settles, HandleAll, Key;
    if hits == [] {
      NothingToHandle(env, recurse, table, st);
      outcomes := [];
      assert Outcomes(st.steps) + [] == Outcomes(st.steps);
    } else {
      var front, last := hits[..|hits| - 1], hits[|hits| - 1];
      assert hits == front + [last] && IsHit(table, last);
      HandleMore(env, recurse, table, front, last, st);
      var before := EachKeyIsSettledOnce(env, recurse, table, front, st);
      var outcome := HandleSettles(env, recurse, table, Counter(last), HandleAll(env, recurse, table, front, st));
      outcomes := before + [outcome];
      assert Outcomes(st.steps) + outcomes == Outcomes(st.steps) + before + [outcome];
    }
  }

  // ----- the whole parse

  datatype Result = Unhandled | Scanning | Success

  function SkipEmptyLines(lines: seq<string>): seq<string> {
    if lines != [] && IsEmptyLine(lines[0]) then SkipEmptyLines(lines[1..]) else lines
  }

  predicate IsPls(lines: seq<string>) {
    var rest := SkipEmptyLines(lines);
    rest != [] && HasPrefix(rest[0], "[playlist]")
  }

  function Start<W>(env: Env<W>, title: Option<string>, st: State<W>): State<W> {
    if title.None? then st
    else st.(steps := st.steps + [PlaylistStarted(env.file, AddField(env.toUtf8, map[], "title", title))])
  }

  function Finish<W>(title: Option<string>, st: State<W>): State<W> {
    if title.None? then st else st.(steps := st.steps + [PlaylistEnded(title.value)])
  }

  /** The parse, with at most `rounds` iterations of the numbered scan. */
  function Parse<W>(env: Env<W>, recurse: bool, contents: string, rounds: nat, st: State<W>): (Result, State<W>) {
    var lines := Lines(contents);
    if !IsPls(lines) then (Unhandled, st)
    else
      var title := ReadIni(lines, "X-MATE-Title");
      var (table, need) := (Load(lines).values, |Load(lines).files|);
      HitsAreOrdered(table, need, rounds);
      var st := HandleAll(env, recurse, table, Hits(table, need, rounds), Start(env, title, st));
      if Ended(table, need, rounds) then (Success, Finish(title, st)) else (Scanning, st)
  }

  /**
   A playlist is read to the end exactly when no entry line was counted or some
   key has a number the counter prints.
   */
  lemma ParseEndsIff<W>(env: Env<W>, recurse: bool, contents: string, st: State<W>)
    requires IsPls(Lines(contents))
    ensures (exists rounds: nat :: Parse(env, recurse, contents, rounds, st).0 == Success)
       <==> Load(Lines(contents)).files == [] || HasNumberedKey(Load(Lines(contents)).values)
  {
    hide Lines, Load, HandleAll, Ended, HasNumberedKey, IsPls;
    var table, need := Load(Lines(contents)).values, |Load(Lines(contents)).files|;
    ScanEndsIff(table, need);
    forall rounds: nat
      ensures Parse(env, recurse, contents, rounds, st).0 == Success <==> Ended(table, need, rounds)
    {
    }
  }

  /**
   Lines whose keys are all different and numbered: the parse ends, every line
   is met once, and each gives one added entry or one successful nested parse.
   */
  lemma NumberedLinesAreSettledOnce<W(!new)>(env: Env<W>, recurse: bool, contents: string, st: State<W>)
    returns (outcomes: seq<Step>)
    requires IsPls(Lines(contents))
    requires NoDuplicates(Load(Lines(contents)).files)
    requires forall key <- Load(Lines(contents)).files :: IsNumbered(key)
    ensures Parse(env, recurse, contents, WRAP, st).0 == Success
    ensures Outcomes(Parse(env, recurse, contents, WRAP, st).1.steps) == Outcomes(st.steps) + outcomes
    ensures Parse(env, recurse, contents, WRAP, st).1.fallback == st.fallback
    ensures var t := Load(Lines(contents));
            && MeetsEachOnce(t.values, t.files, WRAP)
            && SettleInOrder(env, recurse, t.values, Hits(t.values, |t.files|, WRAP), outcomes)
  {
    hide Lines, Load, HandleAll, Hits, IsPls, Outcomes, AddField, NoDuplicates, Key, ReadIni, IsNumbered, Counted,
         SettleInOrder, SetOf, IsHit;
    var lines := Lines(contents);
    var t := Load(lines);
    LoadIsCounted(lines);
    DistinctAndNumberedMeansOnce(t.values, t.files);
    HitsAreOrdered(t.values, |t.files|, WRAP);
    var title := ReadIni(lines, "X-MATE-Title");
    var begun := Start(env, title, st);
    if title.Some? {
      OutcomesOfMore(st.steps, PlaylistStarted(env.file, AddField(env.toUtf8, map[], "title", title)));
    }
    outcomes := EachKeyIsSettledOnce(env, recurse, t.values, Hits(t.values, |t.files|, WRAP), begun);
    if title.Some? {
      OutcomesOfMore(HandleAll(env, recurse, t.values, Hits(t.values, |t.files|, WRAP), begun).steps,
          PlaylistEnded(title.value));
    }
  }

  // ----- the imperative form

  lemma NoHitsYet(table: map<string, string>, need: nat)
    ensures Hits(table, need, 0) == []
  {
  }

  lemma HitsStep(table: map<string, string>, need: nat, rounds: nat)
    ensures var before := Hits(table, need, rounds);
            Hits(table, need, rounds + 1) == if |before| < need && IsHit(table, rounds) then before + [rounds]
                else before
  {
  }

  lemma HitsAreFinal(table: map<string, string>, need: nat, iteration: nat, rounds: nat)
    requires iteration <= rounds
    requires iteration == rounds || |Hits(table, need, iteration)| == need
    ensures Hits(table, need, rounds) == Hits(table, need, iteration)
  {
    hide Hits;
    HitsGrow(table, need, iteration, rounds - iteration);
  }

  class Parser<W(!new)> {
    const env: Env<W>
    const recurse: bool
    var fallback: bool
    var world: W
    var steps: seq<Step>

    constructor (env: Env<W>, recurse: bool, fallback: bool, world: W)
      ensures this.env == env && this.recurse == recurse && Now() == State(fallback, world, [])
    {
      this.env, this.recurse, this.fallback, this.world, this.steps := env, recurse, fallback, world, [];
    }

    function Now(): State<W>
      reads this
    {
      State(fallback, world, steps)
    }

    /** A nested `idol_pl_parser_parse_internal`. */
    method ParseInternal(request: Request) returns (success: bool)
      modifies this
      ensures success == env.parse(request, old(fallback), old(world)).success
      ensures fallback == env.parse(request, old(fallback), old(world)).fallback
      ensures world == env.parse(request, old(fallback), old(world)).world
      ensures steps == old(steps) + [Nested(request, old(fallback), success)]
    {
      var reply := env.parse(request, fallback, world);
      steps := steps + [Nested(request, fallback, reply.success)];
      fallback, world, success := reply.fallback, reply.world, reply.success;
    }

    method HandleKey(table: map<string, string>, i: nat)
      requires i < WRAP && Key("file", i) in table
      modifies this
      ensures Now() == Handle(env, recurse, table, i, old(Now()))
    {
      hide AddField, IsDirect, Key;
      var file := table[Key("file", i)];
      var saved := fallback;
      if recurse {
        fallback := false;
      }
      var lengthNum := LengthOf(env, table, i);
      var success := false;
      if lengthNum >= 0 {
        success := ParseInternal(RequestOf(env, file));
      }
      if !success {
        steps := steps + [EntryOf(env, table, i, file)];
      }
      fallback := saved;
    }

    /** The numbered scan, for at most `rounds` iterations. */
    method Scan(table: map<string, string>, numEntries: nat, rounds: nat) returns (ended: bool)
      modifies this
      ensures ended == Ended(table, numEntries, rounds)
      ensures AreHits(table, Hits(table, numEntries, rounds))
      ensures Now() == HandleAll(env, recurse, table, Hits(table, numEntries, rounds), old(Now()))
    {
      hide Handle, Hits, Key, HandleAll;
      ghost var start := Now();
      var found, i, iteration := 0, 1, 0;
      NoHitsYet(table, numEntries);
      NothingToHandle(env, recurse, table, start);
      while found < numEntries && iteration < rounds
        invariant iteration <= rounds && i == Counter(iteration)
        invariant found == |Hits(table, numEntries, iteration)| <= numEntries
        invariant AreHits(table, Hits(table, numEntries, iteration))
        invariant Now() == HandleAll(env, recurse, table, Hits(table, numEntries, iteration), start)
        decreases rounds - iteration
      {
        HitsStep(table, numEntries, iteration);
        HitsAreOrdered(table, numEntries, iteration + 1);
        if Key("file", i) in table {
          HandleMore(env, recurse, table, Hits(table, numEntries, iteration), iteration, start);
          found := found + 1;
          HandleKey(table, i);
        }
        i := (i + 1) % WRAP;
        iteration := iteration + 1;
      }
      HitsAreFinal(table, numEntries, iteration, rounds);
      ended := found == numEntries;
    }

    method AddPls(contents: string, rounds: nat) returns (result: Result)
      modifies this
      ensures (result, Now()) == Parse(env, recurse, contents, rounds, old(Now()))
      ensures fallback == old(fallback)
    {
      hide HandleAll, Hits, Load, HasPrefix, Lines, ReadIni;
      var lines := Lines(contents);
      var i := 0;
      while i < |lines| && IsEmptyLine(lines[i])
        invariant 0 <= i <= |lines|
        invariant SkipEmptyLines(lines) == SkipEmptyLines(lines[i..])
      {
        assert lines[i..][1..] == lines[i + 1..];
        i := i + 1;
      }
      if i == |lines| || !HasPrefix(lines[i], "[playlist]") {
        return Unhandled;
      }
      var title := ReadIniLineString(lines, "X-MATE-Title");
      if title.Some? {
        steps := steps + [PlaylistStarted(env.file, AddField(env.toUtf8, map[], "title", title))];
      }
      var table, numEntries := LoadTable(lines);
      ghost var begun := Now();
      var ended := Scan(table, numEntries, rounds);
      ghost var outcomes := EachKeyIsSettledOnce(env, recurse, table, Hits(table, numEntries, rounds), begun);
      if !ended {
        return Scanning;
      }
      if title.Some? {
        steps := steps + [PlaylistEnded(title.value)];
      }
      return Success;
    }
  }
}
