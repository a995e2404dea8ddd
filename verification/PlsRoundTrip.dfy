/**
 The PLS writer, `idol_pl_parser_save_pls` (plparse/idol-pl-parser-pls.c:39-138),
 and what the PLS parser makes of its text.
 */
module PlsRoundTrip {
  import opened CText
  import opened Decimal
  import opened Playlist
  import opened PlsText
  import opened PlsScan
  import opened PlsParser

  // ----- the written text

  /** What is written for a URI: relative to the output file when that is possible. */
  function Location(uri: string, relative: string -> Option<string>): string {
    relative(uri).GetOr(uri)
  }

  function FileLine(i: nat, location: string): string {
    "File" + Itoa(i) + "=" + location
  }

  function TitleLine(i: nat, title: string): string {
    "Title" + Itoa(i) + "=" + title
  }

  function PlaylistTitleLine(title: string): string {
    "X-MATE-Title" + "=" + title
  }

  function CountLine(count: nat): string {
    "NumberOfEntries" + "=" + Itoa(count)
  }

  function EntryLines(e: Entry, i: nat, relative: string -> Option<string>): seq<string>
    requires e.uri.Some?
  {
    var location := FileLine(i, Location(e.uri.value, relative));
    if e.title.Some? then [location, TitleLine(i, e.title.value)] else [location]
  }

  /** The lines of the entries, which must all have a URI, numbered from 1. */
  function Body(kept: seq<Entry>, relative: string -> Option<string>): seq<string>
    requires forall e <- kept :: e.uri.Some?
  {
    if kept == [] then []
    else Body(kept[..|kept| - 1], relative) + EntryLines(kept[|kept| - 1], |kept|, relative)
  }

  function Header(title: Option<string>, count: nat): seq<string> {
    if title.Some? then ["[playlist]", PlaylistTitleLine(title.value), CountLine(count)]
    else ["[playlist]", CountLine(count)]
  }

  function Saved(entries: seq<Entry>, title: Option<string>, ignored: string -> bool,
          relative: string -> Option<string>)
    : string
  {
    var kept := Kept(entries, ignored);
    Join(Header(title, |kept|) + Body(kept, relative))
  }

  lemma WriteLine(lines: seq<string>, line: string)
    ensures Join(lines) + (line + "\n") == Join(lines + [line])
  {
    JoinOfConcat(lines, [line]);
    assert [line][1..] == [] && Join([line]) == line + "\n" + "";
  }

  lemma BodyMore(kept: seq<Entry>, e: Entry, relative: string -> Option<string>)
    requires forall k <- kept :: k.uri.Some?
    requires e.uri.Some?
    ensures Body(kept + [e], relative) == Body(kept, relative) + EntryLines(e, |kept| + 1, relative)
  {
    hide EntryLines;
    assert (kept + [e])[..|kept|] == kept;
  }

  lemma BodyGrows(lines: seq<string>, kept: seq<Entry>, e: Entry, relative: string -> Option<string>)
    requires (forall k <- kept :: k.uri.Some?) && e.uri.Some?
    ensures Join(lines + Body(kept + [e], relative))
         == Join(lines + Body(kept, relative)) + Join(EntryLines(e, |kept| + 1, relative))
  {
    hide Join, EntryLines;
    BodyMore(kept, e, relative);
    JoinOfConcat(lines, Body(kept, relative));
    JoinOfConcat(lines, Body(kept, relative) + EntryLines(e, |kept| + 1, relative));
    JoinOfConcat(Body(kept, relative), EntryLines(e, |kept| + 1, relative));
  }

  lemma JoinOfNone()
    ensures Join([]) == ""
  {
  }

  lemma JoinLines(a: string, b: string, c: string)
    ensures Join([a]) == a + "\n" && Join([a, b]) == a + "\n" + (b + "\n")
    ensures Join([a, b, c]) == a + "\n" + (b + "\n") + (c + "\n")
  {
    hide Join;
    WriteLine([], a);
    WriteLine([a], b);
    WriteLine([a, b], c);
    JoinOfNone();
    assert [] + [a] == [a] && [a] + [b] == [a, b] && [a, b] + [c] == [a, b, c];
    assert "" + (a + "\n") == a + "\n";
  }

  method WriteHeader(title: Option<string>, numEntries: nat) returns (stream: string)
    ensures stream == Join(Header(title, numEntries))
  {
    hide Join, PlaylistTitleLine, CountLine;
    stream := "[playlist]" + "\n";
    if title.Some? {
      stream := stream + (PlaylistTitleLine(title.value) + "\n");
    }
    stream := stream + (CountLine(numEntries) + "\n");
    JoinLines("[playlist]", PlaylistTitleLine(title.GetOr("")), CountLine(numEntries));
    JoinLines("[playlist]", CountLine(numEntries), "");
  }

  method WriteEntry(stream: string, e: Entry, i: nat, relative: string -> Option<string>) returns (out: string)
    requires e.uri.Some?
    ensures out == stream + Join(EntryLines(e, i, relative))
  {
    hide Join, FileLine, TitleLine;
    JoinLines(FileLine(i, Location(e.uri.value, relative)), TitleLine(i, e.title.GetOr("")), "");
    out := stream + (FileLine(i, Location(e.uri.value, relative)) + "\n");
    if e.title == None {
      return;
    }
    out := out + (TitleLine(i, e.title.value) + "\n");
  }

  lemma NothingWritten(entries: seq<Entry>, ignored: string -> bool, relative: string -> Option<string>)
    ensures Kept(entries[..0], ignored) == [] && Body([], relative) == []
  {
  }

  /** The loop over the playlist. */
  method SavePls(entries: seq<Entry>, title: Option<string>, ignored: string -> bool,
          relative: string -> Option<string>)
    returns (stream: string)
    ensures stream == Saved(entries, title, ignored, relative)
  {
    hide Join, Body, Kept, EntryLines, Header;
    var numEntries := NumEntries(entries, ignored);
    stream := WriteHeader(title, numEntries);
    ghost var header := Header(title, numEntries);
    NothingWritten(entries, ignored, relative);
    assert header + [] == header;
    var iter, i := 0, 0;
    while iter < |entries|
      invariant 0 <= iter <= |entries|
      invariant i == |Kept(entries[..iter], ignored)|
      invariant stream == Join(header + Body(Kept(entries[..iter], ignored), relative))
    {
      KeptStep(entries, iter, ignored);
      var e := entries[iter];
      iter := iter + 1;
      if e.uri == None {
        continue;
      }
      if ignored(e.uri.value) {
        continue;
      }
      i := i + 1;
      BodyGrows(header, Kept(entries[..iter - 1], ignored), e, relative);
      stream := WriteEntry(stream, e, i, relative);
    }
    assert entries[..|entries|] == entries;
  }

  // ----- the table of the written lines

  /** Every `name<i>` with i in 1..n is in the table, with the value that `values` gives it if any. */
  ghost predicate Holds(table: map<string, string>, name: string, values: seq<Option<string>>) {
    forall i :: 1 <= i < WRAP ==>
      Lookup(table, name, i) == if i <= |values| then values[i - 1] else None
  }

  function Locations(kept: seq<Entry>, relative: string -> Option<string>): (r: seq<Option<string>>)
    requires forall e <- kept :: e.uri.Some?
    ensures |r| == |kept|
  {
    seq(|kept|, k requires 0 <= k < |kept| => assert kept[k] in kept; Some(Location(kept[k].uri.value, relative)))
  }

  function Titles(kept: seq<Entry>): (r: seq<Option<string>>)
    ensures |r| == |kept|
  {
    seq(|kept|, k requires 0 <= k < |kept| => kept[k].title)
  }

  /** The keys `file1` to `file<n>`. */
  function FileKeys(n: nat): (r: seq<string>)
    requires n < WRAP
    ensures |r| == n
  {
    seq(n, k requires 0 <= k < n => Key("file", k + 1))
  }

  /** The table holds the first entries and nothing that looks like more of them. */
  ghost predicate Describes(t: Table, kept: seq<Entry>, relative: string -> Option<string>)
    requires |kept| < WRAP
    requires forall e <- kept :: e.uri.Some?
  {
    && t.files == FileKeys(|kept|)
    && Holds(t.values, "file", Locations(kept, relative))
    && Holds(t.values, "title", Titles(kept))
    && Holds(t.values, "genre", [])
    && Holds(t.values, "length", [])
  }

  /** A key begins with one of the names, or with none. */
  lemma NamesDiffer(i: nat, j: nat)
    requires i < WRAP && j < WRAP
    ensures Key("file", i) != Key("title", j) && Key("file", i) != Key("genre", j) && Key("file", i) != Key("length", j)
    ensures Key("title", i) != Key("genre", j) && Key("title", i) != Key("length", j)
  {
    hide PrintSigned;
    assert Key("file", i)[0] == 'f' && Key("title", i)[0] == 't';
    assert Key("title", j)[0] == 't' && Key("genre", j)[0] == 'g' && Key("length", j)[0] == 'l';
  }

  lemma LowerOfConcat(a: string, b: string)
    ensures Lower(a + b) == Lower(a) + Lower(b)
  {
  }

  lemma LowerOfDigits(s: string)
    requires forall k :: 0 <= k < |s| ==> '0' <= s[k] <= '9'
    ensures Lower(s) == s
  {
  }

  /** A line with a plain key goes into the table as it is. */
  lemma PairOf(key: string, value: string)
    requires key != "" && '=' !in key && key[0] != '#' && key[0] != '[' && !IsAsciiSpace(key[0])
    ensures Pair(key + "=" + value) == Some((key, value))
  {
    hide SplitPair;
    SplitPairOf(key, value);
    var line := key + "=" + value;
    assert line[0] == key[0];
    assert Chug(key) == key;
  }

  lemma LowerNames()
    ensures Lower("File") == "file" && Lower("Title") == "title"
    ensures Lower("X-MATE-Title") == "x-mate-title" && Lower("NumberOfEntries") == "numberofentries"
  {
  }

  lemma WrittenKey(name: string, i: nat, value: string)
    requires name == "File" || name == "Title"
    requires i < 0x8000_0000
    ensures Pair(name + Itoa(i) + "=" + value) == Some((name + Itoa(i), value))
    ensures Lower(name + Itoa(i)) == Key(if name == "File" then "file" else "title", i)
    ensures HasPrefix(name + Itoa(i), "file") <==> name == "File"
  {
    hide Itoa, Pair, Lower, HasPrefix;
    var key := name + Itoa(i);
    PairOf(key, value);
    LowerOfConcat(name, Itoa(i));
    LowerOfDigits(Itoa(i));
    LowerNames();
    CountsLowerPrefix(key);
    assert Lower(key)[0] == (if name == "File" then 'f' else 't');
  }

  lemma AddedLocation(t: Table, kept: seq<Entry>, e: Entry, relative: string -> Option<string>, t': Table)
    requires |kept| + 1 < 0x8000_0000
    requires (forall k <- kept :: k.uri.Some?) && e.uri.Some?
    requires Describes(t, kept, relative)
    requires t' == Table(t.values[Key("file", |kept| + 1) := Location(e.uri.value, relative)],
                         t.files + [Key("file", |kept| + 1)])
    ensures t'.files == FileKeys(|kept| + 1)
    ensures Holds(t'.values, "file", Locations(kept + [e], relative))
    ensures Holds(t'.values, "title", Titles(kept))
    ensures Holds(t'.values, "genre", []) && Holds(t'.values, "length", [])
  {
    hide PrintSigned, Key, Location;
    var n := |kept| + 1;
    forall i | 1 <= i < WRAP
      ensures Lookup(t'.values, "file", i) == if i <= n then Locations(kept + [e], relative)[i - 1] else None
      ensures Lookup(t'.values, "title", i) == Lookup(t.values, "title", i)
      ensures Lookup(t'.values, "genre", i) == Lookup(t.values, "genre", i)
      ensures Lookup(t'.values, "length", i) == Lookup(t.values, "length", i)
    {
      NamesDiffer(n, i);
      assert Lookup(t.values, "file", i) == if i <= |kept| then Locations(kept, relative)[i - 1] else None;
      if Key("file", i) == Key("file", n) {
        KeyInjective("file", i, n);
      }
    }
  }

  lemma AddedTitle(t: Table, kept: seq<Entry>, e: Entry, relative: string -> Option<string>, t': Table)
    requires |kept| + 1 < 0x8000_0000
    requires (forall k <- kept :: k.uri.Some?) && e.uri.Some?
    requires t.files == FileKeys(|kept| + 1)
    requires Holds(t.values, "file", Locations(kept + [e], relative))
    requires Holds(t.values, "title", Titles(kept))
    requires Holds(t.values, "genre", []) && Holds(t.values, "length", [])
    requires t' == if e.title.None? then t else Table(t.values[Key("title", |kept| + 1) := e.title.value], t.files)
    ensures Describes(t', kept + [e], relative)
  {
    hide PrintSigned, Key, Location, Locations;
    var n := |kept| + 1;
    forall i | 1 <= i < WRAP
      ensures Lookup(t'.values, "title", i) == if i <= n then Titles(kept + [e])[i - 1] else None
      ensures Lookup(t'.values, "file", i) == Lookup(t.values, "file", i)
      ensures Lookup(t'.values, "genre", i) == Lookup(t.values, "genre", i)
      ensures Lookup(t'.values, "length", i) == Lookup(t.values, "length", i)
    {
      NamesDiffer(i, n);
      NamesDiffer(n, i);
      assert Lookup(t.values, "title", i) == if i <= |kept| then Titles(kept)[i - 1] else None;
      if Key("title", i) == Key("title", n) {
        KeyInjective("title", i, n);
      }
    }
  }

  lemma LinesAreDescribed(lines: seq<string>, kept: seq<Entry>, e: Entry, relative: string -> Option<string>)
    requires |kept| + 1 < 0x8000_0000
    requires (forall k <- kept :: k.uri.Some?) && e.uri.Some?
    requires Describes(Load(lines), kept, relative)
    ensures Describes(Load(lines + EntryLines(e, |kept| + 1, relative)), kept + [e], relative)
  {
    hide Load, Describes, Pair, HasPrefix, Lower, Itoa, Location, Key, Holds;
    var n := |kept| + 1;
    var location := FileLine(n, Location(e.uri.value, relative));
    WrittenKey("File", n, Location(e.uri.value, relative));
    LoadOfMore(lines, location);
    var t1 := Load(lines + [location]);
    AddedLocation(Load(lines), kept, e, relative, t1);
    if e.title.None? {
      assert lines + [location] == lines + EntryLines(e, n, relative);
      AddedTitle(t1, kept, e, relative, t1);
    } else {
      var title := TitleLine(n, e.title.value);
      WrittenKey("Title", n, e.title.value);
      LoadOfMore(lines + [location], title);
      assert lines + [location] + [title] == lines + EntryLines(e, n, relative);
      AddedTitle(t1, kept, e, relative, Load(lines + [location] + [title]));
    }
  }

  lemma {:induction false} BodyIsDescribed(header: seq<string>, kept: seq<Entry>, relative: string -> Option<string>)
    requires |kept| < 0x8000_0000
    requires forall e <- kept :: e.uri.Some?
    requires Describes(Load(header), [], relative)
    ensures Describes(Load(header + Body(kept, relative)), kept, relative)
    decreases |kept|
  {
    hide Load, Describes, AddLine, Itoa;
    if kept == [] {
      assert header + Body(kept, relative) == header;
    } else {
      var front, last := kept[..|kept| - 1], kept[|kept| - 1];
      assert kept == front + [last];
      BodyIsDescribed(header, front, relative);
      BodyMore(front, last, relative);
      LinesAreDescribed(header + Body(front, relative), front, last, relative);
      assert header + Body(front, relative) + EntryLines(last, |kept|, relative) == header + Body(kept, relative);
    }
  }

  /** The table has none of the numbered keys. */
  ghost predicate Unnumbered(t: Table) {
    t.files == [] && forall key :: key in t.values ==> key == "x-mate-title" || key == "numberofentries"
  }

  lemma FirstLine()
    ensures Unnumbered(Load(["[playlist]"]))
  {
    assert Pair("[playlist]") == None;
    assert ["[playlist]"][..0] == [];
  }

  lemma HeaderLine(t: Table, key: string, value: string)
    requires key == "X-MATE-Title" || key == "NumberOfEntries"
    requires Unnumbered(t)
    ensures Unnumbered(AddLine(t, key + "=" + value))
  {
    hide Pair, Lower, HasPrefix;
    PairOf(key, value);
    LowerNames();
    CountsLowerPrefix(key);
    assert Lower(key)[0] == 'x' || Lower(key)[0] == 'n';
  }

  lemma DescribesNone(t: Table, relative: string -> Option<string>)
    requires Unnumbered(t)
    ensures Describes(t, [], relative)
  {
    hide PrintSigned;
    forall i | 1 <= i < WRAP
      ensures Lookup(t.values, "file", i) == None && Lookup(t.values, "title", i) == None
      ensures Lookup(t.values, "genre", i) == None && Lookup(t.values, "length", i) == None
    {
      assert Key("file", i)[0] == 'f' && Key("title", i)[0] == 't' && Key("genre", i)[0] == 'g'
          && Key("length", i)[0] == 'l';
    }
    assert FileKeys(0) == [];
  }

  /** The header defines none of the numbered keys. */
  lemma HeaderIsDescribed(title: Option<string>, count: nat, relative: string -> Option<string>)
    ensures Describes(Load(Header(title, count)), [], relative)
  {
    hide Load, AddLine, Itoa, Describes, Unnumbered;
    var first, last := "[playlist]", CountLine(count);
    var t := Load([first]);
    FirstLine();
    if title.Some? {
      var second := PlaylistTitleLine(title.value);
      LoadOfMore([first], second);
      LoadOfMore([first, second], last);
      assert [first] + [second] == [first, second] && [first, second] + [last] == Header(title, count);
      HeaderLine(t, "X-MATE-Title", title.value);
      HeaderLine(AddLine(t, second), "NumberOfEntries", Itoa(count));
    } else {
      LoadOfMore([first], last);
      assert [first] + [last] == Header(title, count);
      HeaderLine(t, "NumberOfEntries", Itoa(count));
    }
    DescribesNone(Load(Header(title, count)), relative);
  }

  // ----- reading the text back

  /** A saved entry that can be read: no line breaks in it, and a location that is not a file name. */
  predicate IsReadable(e: Entry, relative: string -> Option<string>) {
    && e.uri.Some?
    && var location := Location(e.uri.value, relative);
    && NulFree(location) && NoBreaks(location) && IsDirect(location)
    && (e.title.Some? ==> NulFree(e.title.value) && NoBreaks(e.title.value))
  }

  lemma DigitsAreText(n: nat)
    ensures NulFree(Itoa(n)) && NoBreaks(Itoa(n))
  {
  }

  lemma {:induction false} BodyIsText(kept: seq<Entry>, relative: string -> Option<string>)
    requires forall e <- kept :: e.uri.Some?
    requires forall e <- kept :: IsReadable(e, relative)
    ensures forall line <- Body(kept, relative) :: NulFree(line) && NoBreaks(line)
    decreases |kept|
  {
    hide IsDirect, Location, Itoa;
    if kept != [] {
      var e := kept[|kept| - 1];
      assert e in kept;
      BodyIsText(kept[..|kept| - 1], relative);
      DigitsAreText(|kept|);
    }
  }

  lemma HeaderIsText(title: Option<string>, count: nat)
    requires title.Some? ==> NulFree(title.value) && NoBreaks(title.value)
    ensures forall line <- Header(title, count) :: NulFree(line) && NoBreaks(line)
  {
    hide Itoa;
    DigitsAreText(count);
  }

  lemma {:induction false} JoinIsNulFree(lines: seq<string>)
    requires forall line <- lines :: NulFree(line)
    ensures NulFree(Join(lines))
  {
    if lines != [] {
      JoinIsNulFree(lines[1..]);
      assert NulFree(lines[0]);
    }
  }

  /** The lines of the saved text are the written ones and an empty one. */
  lemma SavedLines(entries: seq<Entry>, title: Option<string>, ignored: string -> bool,
          relative: string -> Option<string>)
    requires forall e <- Kept(entries, ignored) :: IsReadable(e, relative)
    requires title.Some? ==> NulFree(title.value) && NoBreaks(title.value)
    ensures var kept := Kept(entries, ignored);
            Lines(Saved(entries, title, ignored, relative)) == Header(title, |kept|) + Body(kept, relative) + [""]
  {
    hide NoBreaks, NulFree, Itoa, IsReadable;
    var kept := Kept(entries, ignored);
    var lines := Header(title, |kept|) + Body(kept, relative);
    BodyIsText(kept, relative);
    HeaderIsText(title, |kept|);
    JoinIsNulFree(lines);
    StrLenOfNulFree(Join(lines));
    SplitOfJoin(lines);
    assert lines[0] == "[playlist]";
  }

  // ----- the parse of the text

  lemma TextEndsWithEmptyLine(lines: seq<string>)
    ensures Load(lines + [""]) == Load(lines)
  {
    hide Load;
    LoadOfMore(lines, "");
    assert Pair("") == None;
  }

  /** A line that cannot be a playlist title or a count. */
  predicate IsOther(line: string) {
    line == "" || (line[0] != ' ' && line[0] != '\t' && LowerChar(line[0]) != 'x' && LowerChar(line[0]) != 'n')
  }

  lemma {:induction false} BodyHasNoTitle(kept: seq<Entry>, relative: string -> Option<string>)
    requires forall e <- kept :: e.uri.Some?
    ensures forall line <- Body(kept, relative) + [""] :: IsOther(line)
    decreases |kept|
  {
    hide Location, Itoa;
    if kept != [] {
      BodyHasNoTitle(kept[..|kept| - 1], relative);
    }
  }

  lemma NamesAreNotPrefixes()
    ensures HasPrefix("X-MATE-Title", "X-MATE-Title") && !HasPrefix("X-MATE-Title", "NumberOfEntries")
    ensures HasPrefix("NumberOfEntries", "NumberOfEntries") && !HasPrefix("NumberOfEntries", "X-MATE-Title")
  {
    LowerNames();
    assert "NumberOfEntries"[..12] == "NumberOfEntr";
    assert Lower("NumberOfEntr")[0] == 'n';
  }

  lemma PrefixStartsAlike(s: string, prefix: string)
    requires prefix != ""
    ensures HasPrefix(s, prefix) ==> s != "" && LowerChar(s[0]) == LowerChar(prefix[0])
  {
    if |prefix| <= |s| {
      assert Lower(s[..|prefix|])[0] == LowerChar(s[0]) && Lower(prefix)[0] == LowerChar(prefix[0]);
    }
  }

  lemma OtherIsSkipped(lines: seq<string>, key: string)
    requires lines != [] && IsOther(lines[0])
    requires key != "" && (LowerChar(key[0]) == 'x' || LowerChar(key[0]) == 'n')
    ensures ReadIni(lines, key) == ReadIni(lines[1..], key)
  {
    var line := lines[0];
    assert SkipIndent(line) == line;
    PrefixStartsAlike(line, key);
  }

  lemma FirstLineIsRead(lines: seq<string>)
    requires lines != [] && lines[0] == "[playlist]"
    ensures IsPls(lines)
    ensures ReadIni(lines, "NumberOfEntries") == ReadIni(lines[1..], "NumberOfEntries")
    ensures ReadIni(lines, "X-MATE-Title") == ReadIni(lines[1..], "X-MATE-Title")
  {
    hide ReadIni;
    assert lines[0][0] == '[' && lines[0][..10] == lines[0];
    assert SkipEmptyLines(lines) == lines;
    OtherIsSkipped(lines, "NumberOfEntries");
    OtherIsSkipped(lines, "X-MATE-Title");
  }

  lemma PrefixOfFront(front: string, rest: string, prefix: string)
    requires |prefix| <= |front|
    ensures HasPrefix(front + rest, prefix) == HasPrefix(front, prefix)
  {
    assert (front + rest)[..|prefix|] == front[..|prefix|];
  }

  lemma ReadIniOf(lines: seq<string>, key: string, name: string, value: string)
    requires lines != [] && lines[0] == name + "=" + value && '=' !in name
    requires name != "" && name[0] != ' ' && name[0] != '\t' && |key| <= |name|
    ensures ReadIni(lines, key) == if HasPrefix(name, key) then Some(value) else ReadIni(lines[1..], key)
  {
    hide HasPrefix, SplitPair;
    SplitPairOf(name, value);
    var line := lines[0];
    assert line[0] == name[0] && SkipIndent(line) == line;
    assert line == name + ("=" + value);
    PrefixOfFront(name, "=" + value, key);
  }

  /** The title line is not a count, whatever the title. */
  lemma TitleLineIsNoCount(lines: seq<string>, title: string)
    requires lines != [] && lines[0] == PlaylistTitleLine(title)
    ensures ReadIni(lines, "NumberOfEntries") == ReadIni(lines[1..], "NumberOfEntries")
  {
    var line := lines[0];
    assert line[0] == 'X' && SkipIndent(line) == line;
    PrefixStartsAlike(line, "NumberOfEntries");
  }

  lemma {:induction false} ReadIniOfOthers(lines: seq<string>, key: string)
    requires forall line <- lines :: IsOther(line)
    requires key != "" && (LowerChar(key[0]) == 'x' || LowerChar(key[0]) == 'n')
    ensures ReadIni(lines, key) == None
  {
    hide IsOther;
    if lines != [] {
      assert IsOther(lines[0]);
      OtherIsSkipped(lines, key);
      ReadIniOfOthers(lines[1..], key);
    }
  }

  lemma ReadHeader(title: Option<string>, count: nat, rest: seq<string>)
    requires forall line <- rest :: IsOther(line)
    ensures var lines := Header(title, count) + rest;
            && ReadIni(lines, "NumberOfEntries") == Some(Itoa(count))
            && ReadIni(lines, "X-MATE-Title") == title
            && IsPls(lines)
  {
    hide ReadIni, Itoa, HasPrefix, IsOther;
    var lines := Header(title, count) + rest;
    NamesAreNotPrefixes();
    FirstLineIsRead(lines);
    if title.Some? {
      ReadIniOf(lines[1..], "X-MATE-Title", "X-MATE-Title", title.value);
      TitleLineIsNoCount(lines[1..], title.value);
      assert lines[1..][1..][0] == CountLine(count);
      ReadIniOf(lines[1..][1..], "NumberOfEntries", "NumberOfEntries", Itoa(count));
    } else {
      ReadIniOf(lines[1..], "NumberOfEntries", "NumberOfEntries", Itoa(count));
      ReadIniOf(lines[1..], "X-MATE-Title", "NumberOfEntries", Itoa(count));
      assert lines[1..][1..] == rest;
      ReadIniOfOthers(rest, "X-MATE-Title");
    }
  }

  /** `NumberOfEntries` is the number of `File` lines, and these are numbered from 1 without holes. */
  lemma SavedCounts(entries: seq<Entry>, title: Option<string>, ignored: string -> bool,
          relative: string -> Option<string>)
    requires |Kept(entries, ignored)| < 0x8000_0000
    requires forall e <- Kept(entries, ignored) :: IsReadable(e, relative)
    requires title.Some? ==> NulFree(title.value) && NoBreaks(title.value)
    ensures var (lines, kept) := (Lines(Saved(entries, title, ignored, relative)), Kept(entries, ignored));
            && Describes(Load(lines), kept, relative)
            && ReadIni(lines, "NumberOfEntries") == Some(Itoa(|kept|))
            && ReadIni(lines, "X-MATE-Title") == title
            && IsPls(lines)
  {
    hide Load, Describes, IsReadable, Saved, Lines, ReadIni, IsPls, Body, Header, Kept, NulFree, NoBreaks;
    var kept := Kept(entries, ignored);
    var header := Header(title, |kept|);
    SavedLines(entries, title, ignored, relative);
    HeaderIsDescribed(title, |kept|, relative);
    BodyIsDescribed(header, kept, relative);
    TextEndsWithEmptyLine(header + Body(kept, relative));
    assert header + Body(kept, relative) + [""] == header + (Body(kept, relative) + [""]);
    BodyHasNoTitle(kept, relative);
    ReadHeader(title, |kept|, Body(kept, relative) + [""]);
  }

  /** What the parser itself signals, leaving out nested parses. */
  function Signals(steps: seq<Step>): seq<Step> {
    if steps == [] then []
    else
      var last := steps[|steps| - 1];
      Signals(steps[..|steps| - 1]) + if last.Nested? then [] else [last]
  }

  lemma SignalsOfMore(steps: seq<Step>, last: Step)
    ensures Signals(steps + [last]) == if last.Nested? then Signals(steps) else Signals(steps) + [last]
  {
    assert (steps + [last])[..|steps|] == steps;
  }

  ghost predicate NeverSucceeds<W(!new)>(env: Env<W>) {
    forall request, fallback, w :: !env.parse(request, fallback, w).success
  }

  /** What reading an entry back signals. */
  function ReadEntry<W>(env: Env<W>, e: Entry, relative: string -> Option<string>): (step: Step)
    requires e.uri.Some?
    ensures step.Added?
  {
    var location := Location(e.uri.value, relative);
    var fields := AddField(env.toUtf8, AddField(env.toUtf8, map[], "url", Some(location)), "title", e.title);
    Added(location, fields["base" := env.base])
  }

  function ReadEntries<W>(env: Env<W>, kept: seq<Entry>, relative: string -> Option<string>): (r: seq<Step>)
    requires forall e <- kept :: e.uri.Some?
    ensures |r| == |kept|
  {
    seq(|kept|, k requires 0 <= k < |kept| => assert kept[k] in kept; ReadEntry(env, kept[k], relative))
  }

  lemma HandleSignals<W(!new)>(env: Env<W>, recurse: bool, table: map<string, string>, i: nat, st: State<W>)
    requires i < WRAP && Key("file", i) in table && NeverSucceeds(env)
    ensures Signals(Handle(env, recurse, table, i, st).steps)
         == Signals(st.steps) + [EntryOf(env, table, i, table[Key("file", i)])]
  {
    hide Signals, AddField, Lookup, Key, RequestOf, IsDirect;
    var file := table[Key("file", i)];
    var entry := EntryOf(env, table, i, file);
    SignalsOfMore(st.steps, entry);
    if LengthOf(env, table, i) >= 0 {
      var request, fallback := RequestOf(env, file), st.fallback && !recurse;
      var nested := Nested(request, fallback, false);
      assert !env.parse(request, fallback, st.world).success;
      SignalsOfMore(st.steps, nested);
      SignalsOfMore(st.steps + [nested], entry);
      assert st.steps + [nested, entry] == st.steps + [nested] + [entry];
    }
  }

  lemma NoField(toUtf8: string -> Option<string>)
    ensures forall fields, name :: AddField(toUtf8, fields, name, None) == fields
  {
  }

  lemma EntryIsReadBack<W>(env: Env<W>, t: Table, kept: seq<Entry>, relative: string -> Option<string>, i: nat)
    requires 1 <= i <= |kept| < WRAP
    requires forall e <- kept :: e.uri.Some?
    requires IsReadable(kept[i - 1], relative)
    requires Describes(t, kept, relative)
    ensures Key("file", i) in t.values
    ensures EntryOf(env, t.values, i, t.values[Key("file", i)]) == ReadEntry(env, kept[i - 1], relative)
  {
    hide AddField, Key, Location, NulFree, NoBreaks;
    assert Lookup(t.values, "file", i) == Locations(kept, relative)[i - 1];
    assert Lookup(t.values, "title", i) == Titles(kept)[i - 1];
    assert Lookup(t.values, "genre", i) == None && Lookup(t.values, "length", i) == None;
    NoField(env.toUtf8);
  }

  lemma {:induction false} FirstEntriesAreReadBack<W(!new)>(env: Env<W>, recurse: bool, t: Table, kept: seq<Entry>,
                                                           relative: string -> Option<string>, n: nat, st: State<W>)
    requires n <= |kept| < WRAP - 1 && NeverSucceeds(env)
    requires forall e <- kept :: e.uri.Some?
    requires forall e <- kept :: IsReadable(e, relative)
    requires Describes(t, kept, relative)
    ensures AreHits(t.values, seq(n, p => p))
    ensures Signals(HandleAll(env, recurse, t.values, seq(n, p => p), st).steps)
         == Signals(st.steps) + ReadEntries(env, kept, relative)[..n]
    decreases n
  {
    hide HandleAll, Signals, Handle, EntryOf, Key, Describes, IsReadable, ReadEntry, Location;
    var hits := seq(n, p => p);
    if n == 0 {
      assert hits == [] && ReadEntries(env, kept, relative)[..0] == [];
      NothingToHandle(env, recurse, t.values, st);
    } else {
      var front := seq(n - 1, p => p);
      FirstEntriesAreReadBack(env, recurse, t, kept, relative, n - 1, st);
      assert hits == front + [n - 1];
      assert Counter(n - 1) == n && kept[n - 1] in kept;
      EntryIsReadBack(env, t, kept, relative, n);
      HandleMore(env, recurse, t.values, front, n - 1, st);
      HandleSignals(env, recurse, t.values, n, HandleAll(env, recurse, t.values, front, st));
      var read := ReadEntries(env, kept, relative);
      assert read[..n] == read[..n - 1] + [read[n - 1]];
    }
  }

  function Opening<W>(env: Env<W>, title: Option<string>): seq<Step> {
    if title.None? then [] else [PlaylistStarted(env.file, AddField(env.toUtf8, map[], "title", title))]
  }

  function Closing(title: Option<string>): seq<Step> {
    if title.None? then [] else [PlaylistEnded(title.value)]
  }

  lemma FilesAreHit(t: Table, kept: seq<Entry>, relative: string -> Option<string>, rounds: nat)
    requires |kept| < WRAP && |kept| <= rounds
    requires forall e <- kept :: e.uri.Some?
    requires Describes(t, kept, relative)
    ensures |t.files| == |kept| && Hits(t.values, |kept|, rounds) == seq(|kept|, p => p)
  {
    hide Hits, Key, Location;
    forall i | 1 <= i <= |kept|
      ensures Key("file", i) in t.values
    {
      assert Lookup(t.values, "file", i) == Locations(kept, relative)[i - 1];
    }
    ConsecutiveHits(t.values, |kept|, |kept|);
    HitsAreFinal(t.values, |kept|, |kept|, rounds);
  }

  /**
   A saved playlist is read back: the playlist title is announced, then every
   entry with a URI that is not ignored comes with its location and title, in
   order, and then the end is announced.
   */
  lemma SavedIsReadBack<W(!new)>(env: Env<W>, recurse: bool, entries: seq<Entry>, title: Option<string>,
                                 ignored: string -> bool, relative: string -> Option<string>, rounds: nat, st: State<W>)
    requires NeverSucceeds(env)
    requires |Kept(entries, ignored)| < 0x8000_0000 && |Kept(entries, ignored)| <= rounds
    requires forall e <- Kept(entries, ignored) :: IsReadable(e, relative)
    requires title.Some? ==> NulFree(title.value) && NoBreaks(title.value)
    ensures var (result, end) := Parse(env, recurse, Saved(entries, title, ignored, relative), rounds, st);
            && result == Success && end.fallback == st.fallback
            && Signals(end.steps)
            == Signals(st.steps) + Opening(env, title)
               + ReadEntries(env, Kept(entries, ignored), relative) + Closing(title)
  {
    hide Lines, Load, HandleAll, Hits, IsPls, AddField, Saved, IsReadable, Describes, Key, NulFree, NoBreaks, Kept,
         ReadEntries, Signals, ReadIni, Location;
    var kept := Kept(entries, ignored);
    var lines := Lines(Saved(entries, title, ignored, relative));
    var t := Load(lines);
    SavedCounts(entries, title, ignored, relative);
    var begun := Start(env, title, st);
    FirstEntriesAreReadBack(env, recurse, t, kept, relative, |kept|, begun);
    FilesAreHit(t, kept, relative, rounds);
    assert |t.files| == |kept|;
    var hits := Hits(t.values, |kept|, rounds);
    var outcomes := EachKeyIsSettledOnce(env, recurse, t.values, hits, begun);
    var end := HandleAll(env, recurse, t.values, hits, begun);
    assert ReadEntries(env, kept, relative)[..|kept|] == ReadEntries(env, kept, relative);
    if title.Some? {
      SignalsOfMore(st.steps, PlaylistStarted(env.file, AddField(env.toUtf8, map[], "title", title)));
      SignalsOfMore(end.steps, PlaylistEnded(title.value));
    }
  }

  /** The title that an entry is signalled with. */
  function TitleOf(step: Step): Option<string>
    requires step.Added?
  {
    if "title" in step.entry then Some(step.entry["title"]) else None
  }

  /**
   A URI that is not made relative survives, and so does a UTF-8 title, exactly
   when it is not empty and does not end in white space (an entry without a
   title has none afterwards).
   */
  lemma UriAndTitleSurvive<W>(env: Env<W>, e: Entry, relative: string -> Option<string>)
    requires e.uri.Some? && relative(e.uri.value) == None
    requires e.title.Some? ==> env.toUtf8(e.title.value) == Some(e.title.value)
    ensures ReadEntry(env, e, relative).uri == e.uri.value
    ensures TitleOf(ReadEntry(env, e, relative)) == e.title
       <==> e.title.None? || (e.title.value != "" && !IsAsciiSpace(e.title.value[|e.title.value| - 1]))
  {
  }

  /** The entries that a reader of the signals gets. */
  function EntriesIn(steps: seq<Step>): seq<Entry> {
    if steps == [] then []
    else
      var last := steps[|steps| - 1];
      EntriesIn(steps[..|steps| - 1]) + if last.Added? then [Entry(Some(last.uri), TitleOf(last))] else []
  }

  lemma EntriesInMore(steps: seq<Step>, last: Step)
    ensures EntriesIn(steps + [last])
         == if last.Added? then EntriesIn(steps) + [Entry(Some(last.uri), TitleOf(last))] else EntriesIn(steps)
  {
    hide TitleOf;
    assert (steps + [last])[..|steps|] == steps;
  }

  lemma {:induction false} EntriesInSignals(steps: seq<Step>)
    ensures EntriesIn(Signals(steps)) == EntriesIn(steps)
  {
    hide TitleOf, EntriesIn;
    if steps != [] {
      var front, last := steps[..|steps| - 1], steps[|steps| - 1];
      EntriesInSignals(front);
      EntriesInMore(front, last);
      EntriesInMore(Signals(front), last);
      SignalsOfMore(front, last);
      assert steps == front + [last];
    }
  }

  lemma {:induction false} EntriesInConcat(a: seq<Step>, b: seq<Step>)
    ensures EntriesIn(a + b) == EntriesIn(a) + EntriesIn(b)
    decreases |b|
  {
    hide TitleOf;
    if b == [] {
      assert a + b == a;
    } else {
      EntriesInConcat(a, b[..|b| - 1]);
      assert (a + b)[..|a + b| - 1] == a + b[..|b| - 1];
    }
  }

  function ReadTitles<W>(env: Env<W>, kept: seq<Entry>, relative: string -> Option<string>): (r: seq<Entry>)
    requires forall e <- kept :: e.uri.Some?
    ensures |r| == |kept|
  {
    seq(|kept|, k requires 0 <= k < |kept| =>
      assert kept[k] in kept;
      Entry(Some(ReadEntry(env, kept[k], relative).uri), TitleOf(ReadEntry(env, kept[k], relative))))
  }

  lemma NoEntriesIn()
    ensures EntriesIn([]) == []
  {
  }

  lemma {:induction false} EntriesInFirst<W>(env: Env<W>, kept: seq<Entry>, relative: string -> Option<string>, n: nat)
    requires n <= |kept| && forall e <- kept :: e.uri.Some?
    ensures EntriesIn(ReadEntries(env, kept, relative)[..n]) == ReadTitles(env, kept, relative)[..n]
    decreases n
  {
    hide ReadEntry, TitleOf, EntriesIn;
    var steps, read := ReadEntries(env, kept, relative), ReadTitles(env, kept, relative);
    if n == 0 {
      NoEntriesIn();
    } else {
      EntriesInFirst(env, kept, relative, n - 1);
      assert steps[..n] == steps[..n - 1] + [steps[n - 1]] && kept[n - 1] in kept;
      EntriesInMore(steps[..n - 1], steps[n - 1]);
      assert read[..n] == read[..n - 1] + [read[n - 1]];
    }
  }

  /** A title that reading leaves alone. */
  predicate IsCleanTitle(title: Option<string>) {
    title.None? || (title.value != "" && !IsAsciiSpace(title.value[|title.value| - 1]))
  }

  lemma SameEntriesIff<W>(env: Env<W>, kept: seq<Entry>, relative: string -> Option<string>)
    requires forall e <- kept :: e.uri.Some? && relative(e.uri.value) == None
    requires forall e <- kept :: e.title.Some? ==> env.toUtf8(e.title.value) == Some(e.title.value)
    ensures ReadTitles(env, kept, relative) == kept <==> forall e <- kept :: IsCleanTitle(e.title)
  {
    hide ReadEntry, TitleOf;
    var read := ReadTitles(env, kept, relative);
    forall k | 0 <= k < |kept|
      ensures read[k] == kept[k] <==> IsCleanTitle(kept[k].title)
    {
      assert kept[k] in kept;
      UriAndTitleSurvive(env, kept[k], relative);
    }
    if forall e <- kept :: IsCleanTitle(e.title) {
      forall k | 0 <= k < |kept|
        ensures read[k] == kept[k]
      {
        assert kept[k] in kept;
      }
    }
  }

  lemma NoEntriesAround<W>(env: Env<W>, title: Option<string>)
    ensures EntriesIn(Opening(env, title)) == [] && EntriesIn(Closing(title)) == []
  {
    hide AddField;
  }

  /**
   Saving and parsing a playlist gives back exactly the entries with a URI that
   is not ignored, in order, if and only if their titles are clean; here their
   URIs are not made relative and their titles are UTF-8.
   */
  lemma EntriesComeBackIff<W(!new)>(env: Env<W>, recurse: bool, entries: seq<Entry>, title: Option<string>,
                                    ignored: string -> bool, relative: string -> Option<string>, rounds: nat,
                                    st: State<W>)
    requires NeverSucceeds(env)
    requires |Kept(entries, ignored)| < 0x8000_0000 && |Kept(entries, ignored)| <= rounds
    requires forall e <- Kept(entries, ignored) :: IsReadable(e, relative)
    requires title.Some? ==> NulFree(title.value) && NoBreaks(title.value)
    requires forall e <- Kept(entries, ignored) :: e.uri.Some? && relative(e.uri.value) == None
    requires forall e <- Kept(entries, ignored) :: e.title.Some? ==> env.toUtf8(e.title.value) == Some(e.title.value)
    ensures var kept := Kept(entries, ignored);
            var end := Parse(env, recurse, Saved(entries, title, ignored, relative), rounds, st).1;
            EntriesIn(end.steps) == EntriesIn(st.steps) + kept <==> forall e <- kept :: IsCleanTitle(e.title)
  {
    hide Parse, Saved, Signals, EntriesIn, ReadEntries, ReadTitles, Kept, IsReadable, NulFree, NoBreaks, Opening,
         Closing,
         IsCleanTitle, NeverSucceeds;
    var kept := Kept(entries, ignored);
    var end := Parse(env, recurse, Saved(entries, title, ignored, relative), rounds, st).1;
    var read := ReadEntries(env, kept, relative);
    SavedIsReadBack(env, recurse, entries, title, ignored, relative, rounds, st);
    EntriesInSignals(end.steps);
    EntriesInSignals(st.steps);
    EntriesInConcat(Signals(st.steps) + Opening(env, title) + read, Closing(title));
    EntriesInConcat(Signals(st.steps) + Opening(env, title), read);
    EntriesInConcat(Signals(st.steps), Opening(env, title));
    NoEntriesAround(env, title);
    EntriesInFirst(env, kept, relative, |kept|);
    assert read[..|kept|] == read && ReadTitles(env, kept, relative)[..|kept|] == ReadTitles(env, kept, relative);
    SameEntriesIff(env, kept, relative);
    var before := EntriesIn(st.steps);
    assert EntriesIn(end.steps) == before + ReadTitles(env, kept, relative);
    assert (before + ReadTitles(env, kept, relative))[|before|..] == ReadTitles(env, kept, relative);
    assert (before + kept)[|before|..] == kept;
  }
}
