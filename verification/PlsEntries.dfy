/**
 What a PLS text says, line by line and key by key, and what the parser makes
 of it (plparse/idol-pl-parser-pls.c:161-327): which lines enter the table,
 when a key is tried as a playlist of its own, and which fields its entry has.
 */
module PlsEntries {
  import opened CText
  import opened PlsText
  import opened PlsScan
  import opened PlsParser
  import opened PlsRoundTrip
  import opened Playlist
  import opened Decimal

  // ----- lines

  /** The characters that end a line. */
  function Breaks(s: string): string {
    if s == "" then "" else (if s[0] in "\r\n" then [s[0]] else "") + Breaks(s[1..])
  }

  /** The lines with the characters between them. */
  function Interleaved(lines: seq<string>, breaks: string): string
    requires |lines| == |breaks| + 1
  {
    if breaks == "" then lines[0] else lines[0] + [breaks[0]] + Interleaved(lines[1..], breaks[1..])
  }

  lemma {:induction false} BreaksBehind(line: string, rest: string)
    requires forall k :: 0 <= k < |line| ==> line[k] !in "\r\n"
    ensures Breaks(line + rest) == Breaks(rest)
  {
    if line == "" {
      assert line + rest == rest;
    } else {
      BreaksBehind(line[1..], rest);
      assert (line + rest)[1..] == line[1..] + rest;
    }
  }

  lemma SplitUnfolds(s: string)
    ensures var n := LineLength(s);
            && (n == |s| ==> SplitLines(s) == [s])
            && (n < |s| ==> SplitLines(s) == [s[..n]] + SplitLines(s[n + 1..]))
  {
    hide LineLength, NoBreaks;
  }

  lemma BreaksAfterLine(line: string, rest: string)
    requires (forall k :: 0 <= k < |line| ==> line[k] !in "\r\n") && (rest != "" ==> rest[0] in "\r\n")
    ensures Breaks(line + rest) == if rest == "" then "" else [rest[0]] + Breaks(rest[1..])
  {
    BreaksBehind(line, rest);
  }

  lemma LineHasNoBreaks(s: string)
    ensures var line := s[..LineLength(s)];
            '\r' !in line && '\n' !in line && forall k :: 0 <= k < |line| ==> line[k] !in "\r\n"
    ensures LineLength(s) < |s| ==> s[LineLength(s)] in "\r\n"
  {
    hide LineLength;
  }

  lemma InterleavedMore(line: string, lines: seq<string>, c: char, breaks: string)
    requires |lines| == |breaks| + 1
    ensures Interleaved([line] + lines, [c] + breaks) == line + [c] + Interleaved(lines, breaks)
  {
    assert ([line] + lines)[1..] == lines && ([c] + breaks)[1..] == breaks;
  }

  lemma InterleavedOne(s: string)
    ensures Interleaved([s], "") == s
  {
  }

  /** A text is cut at every carriage return and line feed, and nowhere else; no character is lost. */
  lemma {:induction false} LinesAreWhole(s: string)
    ensures var lines := SplitLines(s);
            && |lines| == |Breaks(s)| + 1 && Interleaved(lines, Breaks(s)) == s
            && forall line <- lines :: '\r' !in line && '\n' !in line
    decreases |s|
  {
    hide SplitLines, Breaks, Interleaved, LineLength, NoBreaks;
    var n := LineLength(s);
    SplitUnfolds(s);
    LineHasNoBreaks(s);
    BreaksAfterLine(s[..n], s[n..]);
    assert s == s[..n] + s[n..];
    if n < |s| {
      assert s[n..][1..] == s[n + 1..];
      LinesAreWhole(s[n + 1..]);
      InterleavedMore(s[..n], SplitLines(s[n + 1..]), s[n], Breaks(s[n + 1..]));
      assert s == s[..n] + [s[n]] + s[n + 1..];
    } else {
      assert s[..n] == s;
      InterleavedOne(s);
    }
  }

  const WHITE := " \t\n\r"

  /** Blanks, tabs, line ends and form feeds. */
  predicate IsWhite(c: char) {
    c in WHITE || c as int == 0x0C
  }

  lemma WhiteIsSpace(c: char)
    ensures IsWhite(c) <==> IsAsciiSpace(c)
  {
  }

  /** White space is taken off the front. */
  lemma {:induction false} FrontIsTakenOff(s: string)
    ensures var r := Chug(s);
            && r == s[|s| - |r|..] && (r != "" ==> !IsWhite(r[0]))
            && forall k :: 0 <= k < |s| - |r| ==> IsWhite(s[k])
    decreases |s|
  {
    hide IsWhite, IsAsciiSpace;
    if s != "" {
      WhiteIsSpace(s[0]);
      FrontIsTakenOff(s[1..]);
    }
  }

  /** White space is taken off the end. */
  lemma {:induction false} EndIsTakenOff(s: string)
    ensures var r := Chomp(s);
            && r == s[..|r|] && (r != "" ==> !IsWhite(r[|r| - 1]))
            && forall k :: |r| <= k < |s| ==> IsWhite(s[k])
    decreases |s|
  {
    hide IsWhite, IsAsciiSpace;
    if s != "" {
      WhiteIsSpace(s[|s| - 1]);
      EndIsTakenOff(s[..|s| - 1]);
    }
  }

  /** The line gives `value` to `key`: white space in front of the key and the case of its letters do not matter. */
  ghost predicate Gives(line: string, key: string, value: string) {
    && line != "" && line[0] != '#' && line[0] != '['
    && exists name :: '=' !in name && line == name + "=" + value && Lower(Chug(name)) == key
  }

  ghost predicate Names(line: string, key: string) {
    exists value :: Gives(line, key, value)
  }

  lemma GivenIsPair(line: string, key: string, value: string, name: string)
    requires line != "" && line[0] != '#' && line[0] != '['
    requires '=' !in name && line == name + "=" + value && Lower(Chug(name)) == key
    ensures Pair(line) == Some((Chug(name), value))
  {
    hide Lower, Chug, SplitPair;
    SplitPairOf(name, value);
    assert line[|name|] == '=';
  }

  lemma PairIsGiven(line: string)
    requires Pair(line).Some?
    ensures Gives(line, Lower(Pair(line).value.0), Pair(line).value.1)
  {
    hide Lower, Chug, SplitPair;
    var name, value := SplitPair(line).value.0, SplitPair(line).value.1;
    assert line == name + "=" + value && '=' !in name;
    assert line != "";
  }

  lemma PairGives(line: string, key: string, value: string)
    ensures Gives(line, key, value) <==>
            Pair(line).Some? && Lower(Pair(line).value.0) == key && Pair(line).value.1 == value
  {
    hide Lower, Chug, Pair;
    if Gives(line, key, value) {
      var name :| '=' !in name && line == name + "=" + value && Lower(Chug(name)) == key;
      GivenIsPair(line, key, value, name);
    }
    if Pair(line).Some? {
      PairIsGiven(line);
    }
  }

  lemma AddedLine(t: Table, line: string, key: string)
    ensures var t' := AddLine(t, line);
            if Names(line, key) then key in t'.values && Gives(line, key, t'.values[key])
            else (key in t'.values <==> key in t.values) && (key in t.values ==> t'.values[key] == t.values[key])
  {
    hide Pair, Gives, Lower, HasPrefix;
    if Pair(line).Some? {
      PairGives(line, Lower(Pair(line).value.0), Pair(line).value.1);
    }
    if Names(line, key) {
      var value :| Gives(line, key, value);
      PairGives(line, key, value);
    }
  }

  /** Line `k` is the last one that names the key. */
  ghost predicate IsLast(lines: seq<string>, key: string, k: nat) {
    k < |lines| && Names(lines[k], key) && forall later :: k < later < |lines| ==> !Names(lines[later], key)
  }

  lemma LastOfMore(front: seq<string>, line: string, key: string, k: nat)
    ensures IsLast(front + [line], key, k) <==> if Names(line, key) then k == |front| else IsLast(front, key, k)
  {
    hide Names;
    var lines := front + [line];
    assert lines[|front|] == line;
    assert forall j :: 0 <= j < |front| ==> lines[j] == front[j];
  }

  lemma NothingLoaded(key: string)
    ensures key !in Load([]).values && forall k: nat :: !IsLast([], key, k)
  {
  }

  lemma LastIsALine(lines: seq<string>, key: string, k: nat)
    ensures IsLast(lines, key, k) ==> k < |lines|
  {
  }

  /** The table has the keys that some line names, each with the value of the last line that names it. */
  lemma {:induction false} TableHasLastLines(lines: seq<string>, key: string)
    ensures key in Load(lines).values <==> exists k: nat :: IsLast(lines, key, k)
    ensures forall k: nat :: IsLast(lines, key, k) ==>
              k < |lines| && key in Load(lines).values && Gives(lines[k], key, Load(lines).values[key])
    decreases |lines|
  {
    hide AddLine, Gives, Names, IsLast;
    if lines == [] {
      NothingLoaded(key);
    } else {
      var front, line := lines[..|lines| - 1], lines[|lines| - 1];
      assert lines == front + [line];
      TableHasLastLines(front, key);
      AddedLine(Load(front), line, key);
      forall k: nat
        ensures IsLast(lines, key, k) <==> if Names(line, key) then k == |front| else IsLast(front, key, k)
        ensures IsLast(front, key, k) ==> k < |front| && lines[k] == front[k]
      {
        LastOfMore(front, line, key, k);
        LastIsALine(front, key, k);
      }
      LastIsALine(lines, key, |front|);
    }
  }

  /** Only tabs and blanks are skipped, and all of them. */
  lemma {:induction false} IndentIsSkipped(line: string)
    ensures var rest := SkipIndent(line);
            var n := |line| - |rest|;
            && rest == line[n..] && (forall k :: 0 <= k < n ==> line[k] in "\t ")
            && (rest != "" ==> rest[0] !in "\t ")
  {
    if line != "" && line[0] in "\t " {
      IndentIsSkipped(line[1..]);
    }
  }

  /** The line begins with `key` behind blanks, in whatever letters. */
  predicate BeginsWith(line: string, key: string) {
    HasPrefix(SkipIndent(line), key)
  }

  /** `value` is all that is behind the first `=`. */
  ghost predicate IsBehindEquals(line: string, value: string) {
    exists name :: '=' !in name && line == name + "=" + value
  }

  lemma SplitIsFirst(line: string)
    ensures SplitPair(line) == None <==> '=' !in line
    ensures SplitPair(line).Some? ==> IsBehindEquals(line, SplitPair(line).value.1)
  {
    hide SplitPair;
    if SplitPair(line).Some? {
      var name, value := SplitPair(line).value.0, SplitPair(line).value.1;
      assert line == name + "=" + value;
      assert line[|name|] == '=';
    }
  }

  /** Line `k` is the first that begins with the key. */
  predicate IsFirst(lines: seq<string>, key: string, k: nat) {
    k < |lines| && BeginsWith(lines[k], key) && forall j :: 0 <= j < k ==> !BeginsWith(lines[j], key)
  }

  lemma FirstOfMore(line: string, rest: seq<string>, key: string, k: nat)
    ensures IsFirst([line] + rest, key, k) <==>
            if BeginsWith(line, key) then k == 0 else k > 0 && IsFirst(rest, key, k - 1)
  {
    hide BeginsWith;
    var lines := [line] + rest;
    assert lines[0] == line;
    if k > 0 && IsFirst(rest, key, k - 1) && !BeginsWith(line, key) {
      forall j | 0 <= j < k
        ensures !BeginsWith(lines[j], key)
      {
        assert j > 0 ==> lines[j] == rest[j - 1];
      }
    }
    if k > 0 && IsFirst(lines, key, k) {
      forall j | 0 <= j < k - 1
        ensures !BeginsWith(rest[j], key)
      {
        assert rest[j] == lines[j + 1];
      }
    }
  }

  /** What `value` says of a line with the key. */
  ghost predicate Decides(line: string, value: Option<string>) {
    if value.None? then '=' !in line else IsBehindEquals(line, value.value)
  }

  lemma ReadOne(line: string, rest: seq<string>, key: string)
    ensures if BeginsWith(line, key) then Decides(SkipIndent(line), ReadIni([line] + rest, key))
            else ReadIni([line] + rest, key) == ReadIni(rest, key)
  {
    hide HasPrefix, SkipIndent, SplitPair;
    assert ([line] + rest)[1..] == rest;
    SplitIsFirst(SkipIndent(line));
  }

  lemma NoFirst(key: string)
    ensures ReadIni([], key) == None && forall k: nat :: !IsFirst([], key, k)
  {
  }

  /** The first such line decides: what is behind its first `=`, or nothing if it has none. */
  lemma {:induction false} FirstLineDecides(lines: seq<string>, key: string)
    ensures (forall k: nat :: !IsFirst(lines, key, k)) ==> ReadIni(lines, key) == None
    ensures forall k: nat :: IsFirst(lines, key, k) ==> Decides(SkipIndent(lines[k]), ReadIni(lines, key))
    decreases |lines|
  {
    hide BeginsWith, SkipIndent, Decides, IsFirst;
    if lines == [] {
      NoFirst(key);
    } else {
      var line, rest := lines[0], lines[1..];
      assert lines == [line] + rest;
      FirstLineDecides(rest, key);
      ReadOne(line, rest, key);
      forall k: nat
        ensures IsFirst(lines, key, k) <==>
                if BeginsWith(line, key) then k == 0 else k > 0 && IsFirst(rest, key, k - 1)
        ensures 0 < k < |lines| ==> lines[k] == rest[k - 1]
      {
        FirstOfMore(line, rest, key, k);
      }
      assert forall k: nat :: IsFirst(rest, key, k) ==> IsFirst(lines, key, k + 1) || BeginsWith(line, key);
    }
  }

  /** Nothing but tabs and blanks. */
  predicate IsBlankLine(line: string) {
    forall k :: 0 <= k < |line| ==> line[k] in "\t "
  }

  lemma BlankIsEmpty(line: string)
    ensures IsBlankLine(line) <==> IsEmptyLine(line)
  {
  }

  lemma EmptyHasNoPrefix(line: string)
    requires IsEmptyLine(line)
    ensures !HasPrefix(line, "[playlist]")
  {
    assert Lower("[playlist]")[0] == '[';
    assert |line| >= 10 ==> Lower(line[..10])[0] == line[0];
  }

  /** A playlist begins with blank lines and then one that begins with `[playlist]`. */
  lemma {:induction false} IsPlsIff(lines: seq<string>)
    ensures IsPls(lines) <==>
            exists k :: 0 <= k < |lines| && HasPrefix(lines[k], "[playlist]")
                        && forall j :: 0 <= j < k ==> IsBlankLine(lines[j])
    decreases |lines|
  {
    hide IsBlankLine, IsEmptyLine, HasPrefix;
    if lines != [] {
      var rest := lines[1..];
      IsPlsIff(rest);
      BlankIsEmpty(lines[0]);
      if IsBlankLine(lines[0]) {
        EmptyHasNoPrefix(lines[0]);
        assert SkipEmptyLines(lines) == SkipEmptyLines(rest);
        if IsPls(rest) {
          var k :| 0 <= k < |rest| && HasPrefix(rest[k], "[playlist]")
                   && forall j :: 0 <= j < k ==> IsBlankLine(rest[j]);
          assert lines[k + 1] == rest[k];
          assert forall j :: 0 <= j < k + 1 ==> j > 0 ==> lines[j] == rest[j - 1];
        }
        if k :| 0 <= k < |lines| && HasPrefix(lines[k], "[playlist]")
                && forall j :: 0 <= j < k ==> IsBlankLine(lines[j]) {
          assert k > 0 && rest[k - 1] == lines[k];
          assert forall j :: 0 <= j < k - 1 ==> rest[j] == lines[j + 1];
        }
      } else {
        assert SkipEmptyLines(lines) == lines;
      }
    }
  }

  // ----- the fields of an entry

  /** What becomes of a value that is given or not: nothing of one that is empty or cannot be converted. */
  function Converted(toUtf8: string -> Option<string>, table: map<string, string>, key: string): Option<string> {
    if key in table && table[key] != "" then toUtf8(table[key]) else None
  }

  function Field(fields: map<string, string>, name: string): Option<string> {
    if name in fields then Some(fields[name]) else None
  }

  /** A name is used as it stands if it has a scheme or starts at the root directory. */
  ghost predicate StandsAlone(file: string) {
    (exists k :: OccursAt(file, "://", k)) || "/" <= file
  }

  lemma StandsAloneIsDirect(file: string)
    ensures StandsAlone(file) <==> IsDirect(file)
  {
    hide Find, OccursAt;
    var r := Find(file, "://");
    assert r.Some? ==> OccursAt(file, "://", r.value);
  }

  lemma FieldAdded(toUtf8: string -> Option<string>, fields: map<string, string>, name: string, value: Option<string>)
    ensures var more := AddField(toUtf8, fields, name, value);
            && more.Keys <= fields.Keys + {name}
            && (forall n :: n != name ==> Field(more, n) == Field(fields, n))
            && Field(more, name) ==
               if value.None? || value.value == "" || toUtf8(value.value).None? then Field(fields, name)
               else Some(if name == "title" then Chomp(toUtf8(value.value).value) else toUtf8(value.value).value)
  {
    hide Chomp;
  }

  function Usable(toUtf8: string -> Option<string>, value: Option<string>): Option<string> {
    if value.None? || value.value == "" then None else toUtf8(value.value)
  }

  lemma FieldsAdded(toUtf8: string -> Option<string>, url: Option<string>, title: Option<string>,
          genre: Option<string>, length: Option<string>)
    returns (fields: map<string, string>)
    ensures var f1 := AddField(toUtf8, AddField(toUtf8, map[], "url", url), "title", title);
            fields == AddField(toUtf8, AddField(toUtf8, f1, "genre", genre), "duration", length)
    ensures fields.Keys <= {"url", "title", "genre", "duration"}
    ensures Field(fields, "url") == Usable(toUtf8, url) && Field(fields, "genre") == Usable(toUtf8, genre)
    ensures Field(fields, "duration") == Usable(toUtf8, length)
    ensures var t := Usable(toUtf8, title); Field(fields, "title") == if t.Some? then Some(Chomp(t.value)) else None
  {
    hide Chomp, AddField;
    var f0: map<string, string> := map[];
    var f1 := AddField(toUtf8, f0, "url", url);
    var f2 := AddField(toUtf8, f1, "title", title);
    var f3 := AddField(toUtf8, f2, "genre", genre);
    fields := AddField(toUtf8, f3, "duration", length);
    FieldAdded(toUtf8, f0, "url", url);
    FieldAdded(toUtf8, f1, "title", title);
    FieldAdded(toUtf8, f2, "genre", genre);
    FieldAdded(toUtf8, f3, "duration", length);
  }

  /** Title, genre and duration are those of the same number in the table; the URL is the name if it stands alone. */
  lemma EntryHasItsFields<W>(env: Env<W>, table: map<string, string>, i: nat, file: string)
    requires i < WRAP
    ensures var e := EntryOf(env, table, i, file);
            && e.Added? && e.uri == (if StandsAlone(file) then file else env.child(file))
            && e.entry.Keys <= {"url", "title", "genre", "duration", "base"}
            && Field(e.entry, "url") == (if StandsAlone(file) && file != "" then env.toUtf8(file) else None)
            && Field(e.entry, "genre") == Converted(env.toUtf8, table, "genre" + PrintSigned(i))
            && Field(e.entry, "duration") == Converted(env.toUtf8, table, "length" + PrintSigned(i))
            && Field(e.entry, "base") == Some(env.base)
            && var title := Converted(env.toUtf8, table, "title" + PrintSigned(i));
               Field(e.entry, "title") == if title.Some? then Some(Chomp(title.value)) else None
  {
    hide PrintSigned, Chomp, StandsAlone, IsDirect, AddField;
    StandsAloneIsDirect(file);
    var fields := FieldsAdded(env.toUtf8, if IsDirect(file) then Some(file) else None, Lookup(table, "title", i),
        Lookup(table, "genre", i), Lookup(table, "length", i));
    assert EntryOf(env, table, i, file).entry == fields["base" := env.base];
  }

  /** The file is tried as a playlist unless its length is given and negative. */
  predicate IsTried<W>(env: Env<W>, table: map<string, string>, i: nat)
    requires i < WRAP
  {
    var key := "length" + PrintSigned(i);
    key in table ==> env.duration(table[key]) >= 0
  }

  /**
   A key that is met is tried first, with its name as it stands or with the
   base it is resolved against, and in recursive mode without `fallback`; its entry
   is added exactly if it was not tried or the try has failed.  The world is what
   the try leaves, and `fallback` is what it was.
   */
  lemma TriedThenAdded<W>(env: Env<W>, recurse: bool, table: map<string, string>, i: nat, st: State<W>)
    requires i < WRAP && "file" + PrintSigned(i) in table
    ensures var file := table["file" + PrintSigned(i)];
            var request := if StandsAlone(file) then Request(env.commandLine(file), None)
                           else Request(env.child(file), Some(env.base));
            var fallback := if recurse then false else st.fallback;
            var reply := env.parse(request, fallback, st.world);
            var entry := EntryOf(env, table, i, file);
            Handle(env, recurse, table, i, st) ==
            if !IsTried(env, table, i) then State(st.fallback, st.world, st.steps + [entry])
            else if reply.success then
              State(st.fallback, reply.world, st.steps + [Nested(request, fallback, true)])
            else State(st.fallback, reply.world, st.steps + [Nested(request, fallback, false), entry])
  {
    hide PrintSigned, EntryOf, StandsAlone, IsDirect;
    StandsAloneIsDirect(table["file" + PrintSigned(i)]);
  }

  // ----- what is written

  /** An entry is written if it has a URI that is not ignored. */
  function Own(e: Entry, ignored: string -> bool): seq<Entry> {
    match e.uri
    case None => []
    case Some(uri) => if ignored(uri) then [] else [e]
  }

  function Written(entries: seq<Entry>, ignored: string -> bool): seq<Entry> {
    if entries == [] then [] else Own(entries[0], ignored) + Written(entries[1..], ignored)
  }

  lemma {:induction false} WrittenOfMore(front: seq<Entry>, e: Entry, ignored: string -> bool)
    ensures Written(front + [e], ignored) == Written(front, ignored) + Own(e, ignored)
    decreases |front|
  {
    hide Own;
    var entries := front + [e];
    if front == [] {
      assert entries == [e] && entries[1..] == [];
    } else {
      WrittenOfMore(front[1..], e, ignored);
      assert entries[1..] == front[1..] + [e] && entries[0] == front[0];
    }
  }

  lemma {:induction false} KeptAreWritten(entries: seq<Entry>, ignored: string -> bool)
    ensures Kept(entries, ignored) == Written(entries, ignored)
    decreases |entries|
  {
    if entries != [] {
      var n := |entries| - 1;
      KeptAreWritten(entries[..n], ignored);
      WrittenOfMore(entries[..n], entries[n], ignored);
      assert entries == entries[..n] + [entries[n]];
    }
  }

  function Shown(uri: string, relative: string -> Option<string>): string {
    match relative(uri)
    case Some(path) => path
    case None => uri
  }

  /** The text of the entries, numbered from 1. */
  function EntriesText(kept: seq<Entry>, relative: string -> Option<string>): string
    requires forall e <- kept :: e.uri.Some?
  {
    if kept == [] then ""
    else
      var (n, e) := (Itoa(|kept|), kept[|kept| - 1]);
      var name := Shown(e.uri.value, relative);
      EntriesText(kept[..|kept| - 1], relative)
      + ("File" + n + "=" + name + "\n" + if e.title.Some? then "Title" + n + "=" + e.title.value + "\n" else "")
  }

  lemma EntryText(e: Entry, i: nat, relative: string -> Option<string>)
    requires e.uri.Some?
    ensures Join(EntryLines(e, i, relative)) ==
            "File" + Itoa(i) + "=" + Shown(e.uri.value, relative) + "\n"
            + if e.title.Some? then "Title" + Itoa(i) + "=" + e.title.value + "\n" else ""
  {
    hide Join, Itoa;
    JoinLines(FileLine(i, Location(e.uri.value, relative)), TitleLine(i, e.title.GetOr("")), "");
  }

  lemma {:induction false} BodyText(kept: seq<Entry>, relative: string -> Option<string>)
    requires forall e <- kept :: e.uri.Some?
    ensures Join(Body(kept, relative)) == EntriesText(kept, relative)
    decreases |kept|
  {
    hide Join, Itoa, EntryLines;
    if kept == [] {
      JoinOfNone();
    } else {
      var front, last := kept[..|kept| - 1], kept[|kept| - 1];
      BodyText(front, relative);
      JoinOfConcat(Body(front, relative), EntryLines(last, |kept|, relative));
      EntryText(last, |kept|, relative);
    }
  }

  function HeaderText(title: Option<string>, count: nat): string {
    var heading := if title.Some? then "[playlist]\n" + ("X-MATE-Title=" + title.value + "\n") else "[playlist]\n";
    heading + ("NumberOfEntries=" + Itoa(count) + "\n")
  }

  lemma HeaderIsText(title: Option<string>, count: nat)
    ensures Join(Header(title, count)) == HeaderText(title, count)
  {
    hide Join, Itoa;
    assert "[playlist]" + "\n" == "[playlist]\n";
    assert "X-MATE-Title" + "=" == "X-MATE-Title=" && "NumberOfEntries" + "=" == "NumberOfEntries=";
    if title.Some? {
      JoinLines("[playlist]", PlaylistTitleLine(title.value), CountLine(count));
    } else {
      JoinLines("[playlist]", CountLine(count), "");
    }
  }

  /** The text that the writer makes, character by character. */
  lemma SavedIsText(entries: seq<Entry>, title: Option<string>, ignored: string -> bool,
                    relative: string -> Option<string>)
    ensures Kept(entries, ignored) == Written(entries, ignored)
    ensures var kept := Kept(entries, ignored);
            Saved(entries, title, ignored, relative) == HeaderText(title, |kept|) + EntriesText(kept, relative)
  {
    hide Join, Itoa, Body, Kept, Written, EntriesText, Header, HeaderText;
    var kept := Kept(entries, ignored);
    KeptAreWritten(entries, ignored);
    JoinOfConcat(Header(title, |kept|), Body(kept, relative));
    BodyText(kept, relative);
    HeaderIsText(title, |kept|);
  }
}
