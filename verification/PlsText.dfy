/**
 Lines and `key=value` pairs as the text formats read them: the GLib string
 functions and the ini helpers of plparse/idol-pl-parser.c (831-843, 1223-1270).
 */
module PlsText {
  import opened CText

  /** `g_ascii_isspace` (which leaves out the vertical tab). */
  predicate IsAsciiSpace(c: char) {
    c == ' ' || c == '\t' || c == '\n' || c == '\r' || c as int == 12
  }

  /** `g_strchug` */
  function Chug(s: string): (r: string)
    ensures |r| <= |s| && r == s[|s| - |r|..]
  {
    if s != "" && IsAsciiSpace(s[0]) then Chug(s[1..]) else s
  }

  /** `g_strchomp` */
  function Chomp(s: string): (r: string)
    ensures r <= s
    ensures r == s <==> s == "" || !IsAsciiSpace(s[|s| - 1])
  {
    if s != "" && IsAsciiSpace(s[|s| - 1]) then Chomp(s[..|s| - 1]) else s
  }

  /** `g_ascii_strncasecmp (s, prefix, strlen (prefix)) == 0` */
  predicate HasPrefix(s: string, prefix: string) {
    |prefix| <= |s| && Lower(s[..|prefix|]) == Lower(prefix)
  }

  predicate IsBreak(c: char) {
    c == '\r' || c == '\n'
  }

  predicate NoBreaks(s: string) {
    forall i :: 0 <= i < |s| ==> !IsBreak(s[i])
  }

  function LineLength(s: string): (n: nat)
    ensures n <= |s| && NoBreaks(s[..n])
    ensures n < |s| ==> IsBreak(s[n])
  {
    if s == "" || IsBreak(s[0]) then 0
    else
      assert s[..1 + LineLength(s[1..])] == [s[0]] + s[1..][..LineLength(s[1..])];
      1 + LineLength(s[1..])
  }

  /** `g_strsplit_set (s, "\r\n", 0)` of a text that is not empty. */
  function SplitLines(s: string): (lines: seq<string>)
    ensures lines != []
  {
    var n := LineLength(s);
    if n == |s| then [s] else [s[..n]] + SplitLines(s[n + 1..])
  }

  function Lines(contents: string): seq<string> {
    var s := CStr(contents);
    if s == "" then [] else SplitLines(s)
  }

  /** The lines, each ended by a newline. */
  function Join(lines: seq<string>): string {
    if lines == [] then "" else lines[0] + "\n" + Join(lines[1..])
  }

  lemma {:induction false} JoinOfConcat(a: seq<string>, b: seq<string>)
    ensures Join(a + b) == Join(a) + Join(b)
  {
    if a == [] {
      assert a + b == b;
    } else {
      JoinOfConcat(a[1..], b);
      assert (a + b)[1..] == a[1..] + b;
    }
  }

  lemma {:induction false} LineLengthOf(line: string, rest: string)
    requires NoBreaks(line) && rest != "" && IsBreak(rest[0])
    ensures LineLength(line + rest) == |line|
  {
    if line == "" {
      assert line + rest == rest;
    } else {
      LineLengthOf(line[1..], rest);
      assert (line + rest)[1..] == line[1..] + rest;
    }
  }

  /** Splitting undoes joining, up to the empty string after the last newline. */
  lemma {:induction false} SplitOfJoin(lines: seq<string>)
    requires forall line <- lines :: NoBreaks(line)
    ensures SplitLines(Join(lines)) == lines + [""]
  {
    if lines != [] {
      var line, rest := lines[0], Join(lines[1..]);
      SplitOfJoin(lines[1..]);
      LineLengthOf(line, "\n" + rest);
      assert Join(lines) == line + ("\n" + rest);
      assert Join(lines)[..|line|] == line && Join(lines)[|line| + 1..] == rest;
    }
  }

  /** `idol_pl_parser_line_is_empty` */
  predicate IsEmptyLine(line: string) {
    forall i :: 0 <= i < |line| ==> line[i] == '\t' || line[i] == ' '
  }

  function SkipIndent(line: string): (r: string)
    ensures |r| <= |line|
  {
    if line != "" && (line[0] == '\t' || line[0] == ' ') then SkipIndent(line[1..]) else line
  }

  function IndexOf(s: string, c: char): (r: Option<nat>)
    ensures r.Some? ==> r.value < |s| && s[r.value] == c && c !in s[..r.value]
    ensures r.None? ==> c !in s
  {
    if s == "" then None
    else if s[0] == c then Some(0)
    else
      var r := IndexOf(s[1..], c);
      assert s == [s[0]] + s[1..];
      if r.Some? then
        assert s[..r.value + 1] == [s[0]] + s[1..][..r.value];
        Some(r.value + 1)
      else None
  }

  /** `g_strsplit (line, "=", 2)` when it has two parts. */
  function SplitPair(line: string): (r: Option<(string, string)>)
    ensures r.Some? ==> line == r.value.0 + "=" + r.value.1 && '=' !in r.value.0
    ensures r.None? ==> '=' !in line
  {
    var k := IndexOf(line, '=');
    if k.Some? then Some((line[..k.value], line[k.value + 1..])) else None
  }

  lemma SplitPairOf(key: string, value: string)
    requires '=' !in key
    ensures SplitPair(key + "=" + value) == Some((key, value))
  {
    var line := key + "=" + value;
    assert line[|key|] == '=';
    var k, v := SplitPair(line).value.0, SplitPair(line).value.1;
    assert line == k + "=" + v;
    assert |k| == |key|;
    assert k == line[..|key|] == key && v == line[|key| + 1..] == value;
  }

  /** `idol_pl_parser_read_ini_line_string`: the value of the first line whose key begins with `key`. */
  function ReadIni(lines: seq<string>, key: string): Option<string> {
    if lines == [] then None
    else
      var line := SkipIndent(lines[0]);
      if HasPrefix(line, key) then
        match SplitPair(line)
        case None => None
        case Some(bits) => Some(bits.1)
      else ReadIni(lines[1..], key)
  }

  method ReadIniLineString(lines: seq<string>, key: string) returns (retval: Option<string>)
    ensures retval == ReadIni(lines, key)
  {
    retval := None;
    var i := 0;
    while i < |lines| && retval == None
      invariant 0 <= i <= |lines|
      invariant ReadIni(lines, key) == if retval.Some? then retval else ReadIni(lines[i..], key)
    {
      assert lines[i..][1..] == lines[i + 1..];
      var line := lines[i];
      while line != "" && (line[0] == '\t' || line[0] == ' ')
        invariant SkipIndent(line) == SkipIndent(lines[i])
        decreases |line|
      {
        line := line[1..];
      }
      if HasPrefix(line, key) {
        var bits := SplitPair(line);
        if bits == None {
          return None;
        }
        retval := Some(bits.value.1);
      }
      i := i + 1;
    }
  }
}
