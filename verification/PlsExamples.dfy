/** Two playlists for which the numbered scan does what one might not expect. */
module PlsExamples {
  import opened CText
  import opened PlsText
  import opened PlsScan
  import opened PlsParser
  import Decimal

  function Behind(lines: seq<string>): string {
    if lines == [] then "" else "\n" + (lines[0] + Behind(lines[1..]))
  }

  /** A header and some lines behind it. */
  function Contents(lines: seq<string>): string {
    "[playlist]" + Behind(lines)
  }

  lemma {:induction false} LineLengthAll(line: string)
    requires NoBreaks(line)
    ensures LineLength(line) == |line|
  {
    if line != "" {
      LineLengthAll(line[1..]);
    }
  }

  lemma {:induction false} SplitOfBehind(line: string, lines: seq<string>)
    requires NoBreaks(line) && forall l <- lines :: NoBreaks(l)
    ensures SplitLines(line + Behind(lines)) == [line] + lines
    decreases |lines|
  {
    var s := line + Behind(lines);
    if lines == [] {
      assert s == line;
      LineLengthAll(line);
    } else {
      var rest := lines[0] + Behind(lines[1..]);
      assert Behind(lines) == "\n" + rest;
      LineLengthOf(line, "\n" + rest);
      assert s[..|line|] == line && s[|line| + 1..] == rest;
      SplitOfBehind(lines[0], lines[1..]);
    }
  }

  const HEADER := "[playlist]"

  lemma HeaderIsHeader()
    ensures HEADER != "" && NoBreaks(HEADER) && !IsEmptyLine(HEADER) && HasPrefix(HEADER, "[playlist]")
    ensures Pair(HEADER) == None
  {
    assert HEADER[0] == '[';
    assert HEADER[..10] == HEADER;
  }

  lemma LinesOfContents(lines: seq<string>)
    requires (forall l <- lines :: NoBreaks(l)) && NulFree(Contents(lines))
    ensures Lines(Contents(lines)) == [HEADER] + lines && IsPls(Lines(Contents(lines)))
  {
    hide Behind, NoBreaks, IsEmptyLine, HasPrefix, SplitLines;
    StrLenOfNulFree(Contents(lines));
    HeaderIsHeader();
    SplitOfBehind(HEADER, lines);
  }

  function PairLine(key: string, value: string): string {
    key + "=" + value
  }

  /** A key of an entry line, in lower case. */
  predicate IsFileKey(key: string) {
    "file" <= key && Lower(key) == key && '=' !in key
  }

  lemma AddPair(t: Table, line: string, key: string, value: string)
    requires Pair(line) == Some((key, value)) && "file" <= key && Lower(key) == key
    ensures AddLine(t, line) == Table(t.values[key := value], t.files + [key])
  {
    hide Pair, Lower;
    CountsLowerPrefix(key);
  }

  lemma FileLine(t: Table, key: string, value: string)
    requires IsFileKey(key)
    ensures AddLine(t, PairLine(key, value)) == Table(t.values[key := value], t.files + [key])
  {
    hide Lower, AddLine;
    SplitPairOf(key, value);
    assert key[..4] == "file" && key[0] == 'f' && PairLine(key, value)[0] == 'f';
    assert Chug(key) == key;
    AddPair(t, PairLine(key, value), key, value);
  }

  lemma LoadOfHeader()
    ensures Load([HEADER]) == Table(map[], [])
  {
    hide Pair;
    HeaderIsHeader();
    LoadOfMore([], HEADER);
    assert [] + [HEADER] == [HEADER];
  }

  lemma PlsIsHandled<W>(env: Env<W>, recurse: bool, contents: string, rounds: nat, st: State<W>)
    requires IsPls(Lines(contents))
    ensures Parse(env, recurse, contents, rounds, st).0 != Unhandled
    ensures var t := Load(Lines(contents));
            Parse(env, recurse, contents, rounds, st).0 == Success <==> Ended(t.values, |t.files|, rounds)
  {
    hide IsPls, Lines, Load, HandleAll, Hits, ReadIni;
  }

  // ----- a key that is no number

  /** One line whose key is counted and never met: however long the scan goes on, it does not end. */
  lemma UncountableKeyNeverEnds<W>(env: Env<W>, recurse: bool, key: string, value: string, rounds: nat, st: State<W>)
    requires IsFileKey(key) && !IsNumbered(key)
    requires NoBreaks(PairLine(key, value)) && NulFree(Contents([PairLine(key, value)]))
    ensures Parse(env, recurse, Contents([PairLine(key, value)]), rounds, st).0 == Scanning
  {
    hide Parse, Load, Lines, IsPls, Key, PairLine, IsFileKey, Contents, NoBreaks, NulFree, AddLine;
    var line := PairLine(key, value);
    LinesOfContents([line]);
    LoadOfHeader();
    LoadOfMore([HEADER], line);
    FileLine(Table(map[], []), key, value);
    assert [] + [key] == [key];
    ParseEndsIff(env, recurse, Contents([line]), st);
    PlsIsHandled(env, recurse, Contents([line]), rounds, st);
  }

  /** The counter prints numbers only. */
  lemma NoSuchNumber(i: nat)
    requires i < WRAP
    ensures Key("file", i) != "filex"
  {
    hide Decimal.Itoa;
    assert PrintSigned(i)[0] != 'x';
    assert Key("file", i)[4] == PrintSigned(i)[0];
  }

  lemma FilexText()
    ensures Contents([PairLine("filex", "a")]) == "[playlist]\nfilex=a" && NulFree("[playlist]\nfilex=a")
    ensures NoBreaks(PairLine("filex", "a")) && IsFileKey("filex")
  {
    var line := PairLine("filex", "a");
    assert line == "filex=a";
    assert [line][1..] == [];
    assert Behind([line]) == "\nfilex=a";
  }

  /** Such a playlist. */
  lemma FilexNeverEnds<W>(env: Env<W>, recurse: bool, rounds: nat, st: State<W>)
    ensures Parse(env, recurse, "[playlist]\nfilex=a", rounds, st).0 == Scanning
  {
    hide Parse, Contents, Key;
    forall i: nat | i < WRAP
      ensures Key("file", i) != "filex"
    {
      NoSuchNumber(i);
    }
    FilexText();
    UncountableKeyNeverEnds(env, recurse, "filex", "a", rounds, st);
  }

  // ----- equal keys

  /**
   Two lines with the same numbered key: two are counted, the table has one, and
   the scan ends when its counter has wrapped around to that key again.
   */
  lemma EqualKeysAreMetTwice<W>(env: Env<W>, recurse: bool, key: string, v: string, w: string,
          st: State<W>) returns (rounds: nat)
    requires IsFileKey(key) && IsNumbered(key)
    requires NoBreaks(PairLine(key, v)) && NoBreaks(PairLine(key, w))
             && NulFree(Contents([PairLine(key, v), PairLine(key, w)]))
    ensures var t := Load(Lines(Contents([PairLine(key, v), PairLine(key, w)])));
            && t == Table(map[key := w], [key, key])
            && Met(Hits(t.values, |t.files|, rounds)) == [key, key]
    ensures Parse(env, recurse, Contents([PairLine(key, v), PairLine(key, w)]), rounds, st).0 == Success
  {
    hide Parse, Load, Lines, IsPls, Key, PairLine, IsFileKey, Contents, NoBreaks, NulFree, AddLine, Hits;
    var l1, l2 := PairLine(key, v), PairLine(key, w);
    LinesOfContents([l1, l2]);
    assert [HEADER] + [l1, l2] == [HEADER] + [l1] + [l2];
    LoadOfHeader();
    LoadOfMore([HEADER], l1);
    LoadOfMore([HEADER] + [l1], l2);
    FileLine(Table(map[], []), key, v);
    FileLine(Table(map[key := v], [key]), key, w);
    assert [] + [key] == [key] && [key] + [key] == [key, key];
    assert map[key := v][key := w] == map[key := w];
    var table := map[key := w];
    assert HasNumberedKey(table);
    ParseEndsIff(env, recurse, Contents([l1, l2]), st);
    rounds :| Parse(env, recurse, Contents([l1, l2]), rounds, st).0 == Success;
    PlsIsHandled(env, recurse, Contents([l1, l2]), rounds, st);
    HitsAreOrdered(table, 2, rounds);
    assert |Hits(table, 2, rounds)| == 2;
    assert IsHit(table, Hits(table, 2, rounds)[0]) && IsHit(table, Hits(table, 2, rounds)[1]);
  }

  lemma File1Text()
    ensures Contents([PairLine("file1", "a"), PairLine("file1", "b")]) == "[playlist]\nfile1=a\nfile1=b"
    ensures NulFree("[playlist]\nfile1=a\nfile1=b")
    ensures NoBreaks(PairLine("file1", "a")) && NoBreaks(PairLine("file1", "b"))
  {
    var l1, l2 := PairLine("file1", "a"), PairLine("file1", "b");
    assert l1 == "file1=a" && l2 == "file1=b";
    assert [l1, l2][1..] == [l2] && [l2][1..] == [];
    assert Behind([l2]) == "\nfile1=b";
    assert Behind([l1, l2]) == "\nfile1=a\nfile1=b";
  }

  lemma File1Key()
    ensures IsFileKey("file1") && IsNumbered("file1")
  {
    assert Decimal.Itoa(1) == "1" && Key("file", 1) == "file1";
  }

  /** Such a playlist. */
  lemma File1IsMetTwice<W>(env: Env<W>, recurse: bool, st: State<W>) returns (rounds: nat)
    ensures var contents := "[playlist]\nfile1=a\nfile1=b";
            var t := Load(Lines(contents));
            Parse(env, recurse, contents, rounds, st).0 == Success
                && Met(Hits(t.values, |t.files|, rounds)) == ["file1", "file1"]
  {
    hide Parse, Contents, Load, Lines, Hits, Met;
    File1Text();
    File1Key();
    rounds := EqualKeysAreMetTwice(env, recurse, "file1", "a", "b", st);
  }
}
