/**
 The blanking of comments before XML is parsed (`idol_pl_parser_cleanup_xml`,
 plparse/idol-pl-parser.c:1629-1658), in place on the text.
 */
module CommentBlanker {
  import opened CText

  const OPEN := "<!--"
  const CLOSE := "-->"
  const CDATA_END := "]]>"

  predicate IsOpen(s: string, i: int) {
    0 <= i && i + 4 <= |s| && s[i] == '<' && s[i + 1] == '!' && s[i + 2] == '-' && s[i + 3] == '-'
  }

  predicate IsClose(s: string, i: int) {
    0 <= i && i + 3 <= |s| && s[i] == '-' && s[i + 1] == '-' && s[i + 2] == '>'
  }

  predicate IsCdataEnd(s: string, i: int) {
    0 <= i && i + 3 <= |s| && s[i] == ']' && s[i + 1] == ']' && s[i + 2] == '>'
  }

  lemma Occurrences(s: string, i: int)
    ensures OccursAt(s, OPEN, i) <==> IsOpen(s, i)
    ensures OccursAt(s, CLOSE, i) <==> IsClose(s, i)
    ensures OccursAt(s, CDATA_END, i) <==> IsCdataEnd(s, i)
  {
    if 0 <= i && i + 4 <= |s| {
      assert s[i..i + 4] == [s[i], s[i + 1], s[i + 2], s[i + 3]];
    }
    if 0 <= i && i + 3 <= |s| {
      assert s[i..i + 3] == [s[i], s[i + 1], s[i + 2]];
    }
  }

  lemma FindOpen(s: string)
    ensures match Find(s, OPEN)
            case None => forall j :: !IsOpen(s, j)
            case Some(i) => IsOpen(s, i) && forall j :: 0 <= j < i ==> !IsOpen(s, j)
  {
    hide OccursAt;
    forall j ensures OccursAt(s, OPEN, j) <==> IsOpen(s, j) { Occurrences(s, j); }
  }

  lemma FindClose(s: string)
    ensures match Find(s, CLOSE)
            case None => forall j :: !IsClose(s, j)
            case Some(i) => IsClose(s, i) && forall j :: 0 <= j < i ==> !IsClose(s, j)
  {
    hide OccursAt;
    forall j ensures OccursAt(s, CLOSE, j) <==> IsClose(s, j) { Occurrences(s, j); }
  }

  lemma FindCdataEnd(s: string)
    ensures match Find(s, CDATA_END)
            case None => forall j :: !IsCdataEnd(s, j)
            case Some(i) => IsCdataEnd(s, i)
  {
    hide OccursAt;
    forall j ensures OccursAt(s, CDATA_END, j) <==> IsCdataEnd(s, j) { Occurrences(s, j); }
  }

  // ----- one round of the loop

  /** `at` is the first comment start and `close` the first comment end from there on. */
  datatype Round = Stop | Skip(at: nat, close: nat) | Blank(at: nat, close: nat)

  function NextRound(s: string): Round {
    match Find(s, OPEN)
    case None => Stop
    case Some(i) =>
      match Find(s[i..], CLOSE)
      case None => Stop
      case Some(e) => if Find(s[i..i + e], CDATA_END).Some? then Skip(i, i + e) else Blank(i, i + e)
  }

  /** A comment that starts at `at`, ends with the `-->` at `close` and is the first in the text. */
  predicate FirstComment(s: string, at: nat, close: nat) {
    && IsOpen(s, at) && (forall j :: 0 <= j < at ==> !IsOpen(s, j))
    && at + 2 <= close && IsClose(s, close) && (forall j :: at <= j < close ==> !IsClose(s, j))
  }

  ghost predicate HasCdataEnd(s: string, from: int, to: int) {
    exists m :: from <= m && m + 3 <= to && IsCdataEnd(s, m)
  }

  lemma CloseShifts(s: string, i: nat)
    requires i <= |s|
    ensures forall j :: IsClose(s[i..], j) ==> IsClose(s, i + j)
    ensures forall j :: i <= j && IsClose(s, j) ==> IsClose(s[i..], j - i)
  {
  }

  lemma RoundIsFirst(s: string)
    ensures match NextRound(s)
            case Stop => forall i, j :: IsOpen(s, i) && i <= j ==> !IsClose(s, j)
            case Skip(at, close) => FirstComment(s, at, close) && HasCdataEnd(s, at, close)
            case Blank(at, close) => FirstComment(s, at, close) && !HasCdataEnd(s, at, close)
  {
    hide Find, OccursAt;
    FindOpen(s);
    if Find(s, OPEN).Some? {
      var i := Find(s, OPEN).value;
      var t := s[i..];
      FindClose(t);
      CloseShifts(s, i);
      if Find(t, CLOSE).Some? {
        var e := Find(t, CLOSE).value;
        var u := s[i..i + e];
        FindCdataEnd(u);
        assert forall m :: IsCdataEnd(u, m) ==> IsCdataEnd(s, i + m);
        assert forall m :: i <= m && m + 3 <= i + e && IsCdataEnd(s, m) ==> IsCdataEnd(u, m - i);
        assert e >= 2;
      }
    }
  }

  /** The text up to a `<!--` that is left alone, and its first three characters. */
  function KeptFront(s: string, at: nat): string
    requires at + 3 <= |s|
  {
    s[..at + 3]
  }

  function BlankedFront(s: string, at: nat, close: nat): string
    requires at <= close && at <= |s|
  {
    s[..at] + Blanks(close + 3 - at)
  }

  /** The text from the search position on, after the function has run over it. */
  function Cleaned(s: string): (r: string)
    decreases |s|
  {
    RoundIsFirst(s);
    match NextRound(s)
    case Stop => s
    case Skip(at, _) => KeptFront(s, at) + Cleaned(s[at + 3..])
    case Blank(at, close) => BlankedFront(s, at, close) + Cleaned(s[close + 3..])
  }

  lemma CleanedStops(s: string)
    requires NextRound(s) == Stop
    ensures Cleaned(s) == s
  {
    hide NextRound, FirstComment, HasCdataEnd;
  }

  lemma RoundBounds(s: string, at: nat, close: nat)
    requires NextRound(s) == Skip(at, close) || NextRound(s) == Blank(at, close)
    ensures FirstComment(s, at, close) && HasCdataEnd(s, at, close) == NextRound(s).Skip?
    ensures at + 5 <= close + 3 <= |s| && s[at] == '<'
  {
    hide NextRound, HasCdataEnd;
    RoundIsFirst(s);
  }

  lemma SkipUnfolds(s: string, at: nat, close: nat)
    requires NextRound(s) == Skip(at, close) && at + 3 <= |s|
    ensures Cleaned(s) == KeptFront(s, at) + Cleaned(s[at + 3..])
  {
    hide NextRound, KeptFront, BlankedFront, FirstComment, HasCdataEnd, IsOpen, IsClose;
  }

  lemma CleanedSkips(s: string, at: nat, close: nat)
    requires NextRound(s) == Skip(at, close)
    ensures FirstComment(s, at, close) && HasCdataEnd(s, at, close)
    ensures at + 5 <= close + 3 <= |s| && s[at] == '<'
    ensures Cleaned(s) == s[..at + 3] + Cleaned(s[at + 3..])
  {
    hide NextRound, HasCdataEnd, FirstComment, Cleaned;
    RoundBounds(s, at, close);
    SkipUnfolds(s, at, close);
  }

  lemma BlankUnfolds(s: string, at: nat, close: nat)
    requires NextRound(s) == Blank(at, close) && at <= close && close + 3 <= |s|
    ensures Cleaned(s) == BlankedFront(s, at, close) + Cleaned(s[close + 3..])
  {
    hide NextRound, KeptFront, BlankedFront, FirstComment, HasCdataEnd, IsOpen, IsClose;
  }

  lemma CleanedBlanks(s: string, at: nat, close: nat)
    requires NextRound(s) == Blank(at, close)
    ensures FirstComment(s, at, close) && !HasCdataEnd(s, at, close)
    ensures at + 5 <= close + 3 <= |s| && s[at] == '<'
    ensures Cleaned(s) == s[..at] + Blanks(close + 3 - at) + Cleaned(s[close + 3..])
  {
    hide NextRound, HasCdataEnd, FirstComment, Blanks;
    RoundBounds(s, at, close);
    BlankUnfolds(s, at, close);
    hide Cleaned;
  }

  // ----- what is changed

  /** Every character is kept or blanked, and no `]]>` is lost. */
  ghost predicate Blanked(s: string, r: string) {
    && |r| == |s|
    && (forall k :: 0 <= k < |s| ==> r[k] == s[k] || r[k] == ' ')
    && (forall m :: IsCdataEnd(s, m) ==> IsCdataEnd(r, m))
  }

  lemma BlankedKeepsPatterns(s: string, r: string)
    requires Blanked(s, r)
    ensures forall i :: IsOpen(r, i) ==> IsOpen(s, i)
    ensures forall i :: IsClose(r, i) ==> IsClose(s, i)
  {
  }

  lemma SkipBlanks(s: string, at: nat, close: nat, rest: string)
    requires FirstComment(s, at, close) && Blanked(s[at + 3..], rest)
    ensures Blanked(s, s[..at + 3] + rest)
  {
    var r := s[..at + 3] + rest;
    forall m | IsCdataEnd(s, m)
      ensures IsCdataEnd(r, m)
    {
      if m >= at + 3 {
        assert IsCdataEnd(s[at + 3..], m - (at + 3));
        assert IsCdataEnd(rest, m - (at + 3));
      }
    }
  }

  lemma BlankBlanks(s: string, at: nat, close: nat, rest: string)
    requires FirstComment(s, at, close) && !HasCdataEnd(s, at, close) && Blanked(s[close + 3..], rest)
    ensures Blanked(s, s[..at] + Blanks(close + 3 - at) + rest)
  {
    var r := s[..at] + Blanks(close + 3 - at) + rest;
    forall m | IsCdataEnd(s, m)
      ensures IsCdataEnd(r, m)
    {
      if m >= close + 3 {
        assert IsCdataEnd(s[close + 3..], m - (close + 3));
        assert IsCdataEnd(rest, m - (close + 3));
      }
    }
  }

  lemma {:induction false} CleanedOnlyBlanks(s: string)
    ensures Blanked(s, Cleaned(s))
    decreases |s|
  {
    hide NextRound, FirstComment, HasCdataEnd, Blanks, Cleaned;
    match NextRound(s)
    case Stop => CleanedStops(s);
    case Skip(at, close) =>
      CleanedSkips(s, at, close);
      CleanedOnlyBlanks(s[at + 3..]);
      SkipBlanks(s, at, close, Cleaned(s[at + 3..]));
    case Blank(at, close) =>
      CleanedBlanks(s, at, close);
      CleanedOnlyBlanks(s[close + 3..]);
      BlankBlanks(s, at, close, Cleaned(s[close + 3..]));
  }

  ghost predicate BlankedComment(s: string, r: string, at: nat, close: nat)
    requires |r| == |s|
  {
    && IsOpen(s, at) && IsClose(s, close) && at + 2 <= close
    && (forall j :: at <= j < close ==> !IsClose(s, j))
    && !HasCdataEnd(s, at, close)
    && forall j :: at <= j < close + 3 ==> r[j] == ' '
  }

  /** Position `k` lies in a comment without `]]>` that has become blank from end to end. */
  ghost predicate InBlankedComment(s: string, r: string, k: int)
    requires |r| == |s|
  {
    exists at: nat, close: nat :: BlankedComment(s, r, at, close) && at <= k < close + 3
  }

  lemma CdataEndShifts(s: string, d: nat, from: nat, to: nat)
    requires d <= |s|
    ensures HasCdataEnd(s[d..], from, to) <==> HasCdataEnd(s, d + from, d + to)
  {
    if HasCdataEnd(s, d + from, d + to) {
      var m :| d + from <= m && m + 3 <= d + to && IsCdataEnd(s, m);
      assert IsCdataEnd(s[d..], m - d);
    }
    if HasCdataEnd(s[d..], from, to) {
      var m :| from <= m && m + 3 <= to && IsCdataEnd(s[d..], m);
      assert IsCdataEnd(s, d + m);
    }
  }

  lemma ShiftBlankedComment(s: string, front: string, rest: string, at: nat, close: nat)
    requires |front| <= |s| && |rest| == |s| - |front|
    requires BlankedComment(s[|front|..], rest, at, close)
    ensures BlankedComment(s, front + rest, |front| + at, |front| + close)
  {
    hide HasCdataEnd;
    var d, t := |front|, s[|front|..];
    CloseShifts(s, d);
    if HasCdataEnd(s, d + at, d + close) {
      CdataEndShifts(s, d, at, close);
    }
  }

  lemma ShiftComment(s: string, front: string, rest: string, j: nat)
    requires |front| <= |s| && |rest| == |s| - |front|
    requires InBlankedComment(s[|front|..], rest, j)
    ensures InBlankedComment(s, front + rest, |front| + j)
  {
    hide BlankedComment;
    var at: nat, close: nat :| BlankedComment(s[|front|..], rest, at, close) && at <= j < close + 3;
    ShiftBlankedComment(s, front, rest, at, close);
  }

  /** Changes in the rest of a text are changes in the text. */
  lemma ShiftChanges(s: string, front: string, rest: string)
    requires |front| <= |s| && |rest| == |s| - |front|
    requires forall k :: 0 <= k < |rest| ==> rest[k] == s[|front|..][k] || InBlankedComment(s[|front|..], rest, k)
    ensures forall k :: |front| <= k < |s| ==> (front + rest)[k] == s[k] || InBlankedComment(s, front + rest, k)
  {
    hide InBlankedComment;
    forall k | |front| <= k < |s|
      ensures (front + rest)[k] == s[k] || InBlankedComment(s, front + rest, k)
    {
      var j := k - |front|;
      assert rest[j] == s[|front|..][j] || InBlankedComment(s[|front|..], rest, j);
      if rest[j] != s[|front|..][j] {
        ShiftComment(s, front, rest, j);
      }
    }
  }

  lemma CommentIsBlanked(s: string, at: nat, close: nat, rest: string)
    requires FirstComment(s, at, close) && !HasCdataEnd(s, at, close) && |rest| == |s| - close - 3
    ensures var r := s[..at] + Blanks(close + 3 - at) + rest;
            forall k :: at <= k < close + 3 ==> InBlankedComment(s, r, k)
  {
    assert BlankedComment(s, s[..at] + Blanks(close + 3 - at) + rest, at, close);
  }

  /** Whatever changes lies inside a comment that is blanked as a whole. */
  lemma {:induction false} ChangesAreBlankedComments(s: string)
    ensures |Cleaned(s)| == |s|
    ensures forall k :: 0 <= k < |s| ==> Cleaned(s)[k] == s[k] || InBlankedComment(s, Cleaned(s), k)
    decreases |s|
  {
    hide InBlankedComment, Blanks, NextRound, FirstComment, HasCdataEnd, Cleaned;
    match NextRound(s)
    case Stop => CleanedStops(s);
    case Skip(at, close) =>
      CleanedSkips(s, at, close);
      ChangesAreBlankedComments(s[at + 3..]);
      ShiftChanges(s, s[..at + 3], Cleaned(s[at + 3..]));
    case Blank(at, close) =>
      CleanedBlanks(s, at, close);
      ChangesAreBlankedComments(s[close + 3..]);
      CommentIsBlanked(s, at, close, Cleaned(s[close + 3..]));
      ShiftChanges(s, s[..at] + Blanks(close + 3 - at), Cleaned(s[close + 3..]));
  }

  // ----- what is left

  /** Between a comment start that is left and any later `-->` there is a `]]>`. */
  ghost predicate Settled(s: string) {
    forall p, q :: IsOpen(s, p) && p <= q && IsClose(s, q) ==> HasCdataEnd(s, p, q)
  }

  lemma StopIsSettled(s: string)
    requires NextRound(s).Stop?
    ensures Settled(s)
  {
    hide NextRound, HasCdataEnd;
    RoundIsFirst(s);
  }

  lemma ShiftSettled(front: string, rest: string, p: int, q: int)
    requires Settled(rest) && IsOpen(front + rest, p) && IsClose(front + rest, q) && |front| <= p <= q
    ensures HasCdataEnd(front + rest, p, q)
  {
    var d := |front|;
    assert IsOpen(rest, p - d) && IsClose(rest, q - d);
    var m :| p - d <= m && m + 3 <= q - d && IsCdataEnd(rest, m);
    assert IsCdataEnd(front + rest, m + d);
  }

  lemma SettledIntro(r: string)
    requires forall p, q :: IsOpen(r, p) && p <= q && IsClose(r, q) ==> HasCdataEnd(r, p, q)
    ensures Settled(r)
  {
  }

  lemma SkipSettles(s: string, at: nat, close: nat, rest: string)
    requires FirstComment(s, at, close) && HasCdataEnd(s, at, close)
    requires Settled(rest) && Blanked(s, s[..at + 3] + rest)
    ensures Settled(s[..at + 3] + rest)
  {
    hide Settled;
    var r := s[..at + 3] + rest;
    BlankedKeepsPatterns(s, r);
    forall p, q | IsOpen(r, p) && p <= q && IsClose(r, q)
      ensures HasCdataEnd(r, p, q)
    {
      assert IsOpen(s, p) && IsClose(s, q);
      if p <= at {
        var m :| at <= m && m + 3 <= close && IsCdataEnd(s, m);
        assert IsCdataEnd(r, m);
      } else {
        ShiftSettled(s[..at + 3], rest, p, q);
      }
    }
    SettledIntro(r);
  }

  lemma BlankSettles(s: string, at: nat, close: nat, rest: string)
    requires FirstComment(s, at, close)
    requires Settled(rest) && Blanked(s, s[..at] + Blanks(close + 3 - at) + rest)
    ensures Settled(s[..at] + Blanks(close + 3 - at) + rest)
  {
    hide Settled;
    var front := s[..at] + Blanks(close + 3 - at);
    var r := front + rest;
    BlankedKeepsPatterns(s, r);
    forall p, q | IsOpen(r, p) && p <= q && IsClose(r, q)
      ensures HasCdataEnd(r, p, q)
    {
      assert IsOpen(s, p);
      ShiftSettled(front, rest, p, q);
    }
    SettledIntro(r);
  }

  lemma {:induction false} CleanedIsSettled(s: string)
    ensures Settled(Cleaned(s))
    decreases |s|
  {
    hide Settled, Blanked, HasCdataEnd, NextRound, FirstComment, Blanks, Cleaned;
    CleanedOnlyBlanks(s);
    match NextRound(s)
    case Stop =>
      CleanedStops(s);
      StopIsSettled(s);
    case Skip(at, close) =>
      CleanedSkips(s, at, close);
      CleanedIsSettled(s[at + 3..]);
      SkipSettles(s, at, close, Cleaned(s[at + 3..]));
    case Blank(at, close) =>
      CleanedBlanks(s, at, close);
      CleanedIsSettled(s[close + 3..]);
      BlankSettles(s, at, close, Cleaned(s[close + 3..]));
  }

  lemma NothingToBlank(s: string)
    requires Settled(s)
    ensures !NextRound(s).Blank?
  {
    hide NextRound;
    RoundIsFirst(s);
  }

  lemma SuffixIsSettled(s: string, k: nat)
    requires Settled(s) && k <= |s|
    ensures Settled(s[k..])
  {
    var t := s[k..];
    forall p, q | IsOpen(t, p) && p <= q && IsClose(t, q)
      ensures HasCdataEnd(t, p, q)
    {
      assert IsOpen(s, k + p) && IsClose(s, k + q);
      var m :| k + p <= m && m + 3 <= k + q && IsCdataEnd(s, m);
      assert IsCdataEnd(t, m - k);
    }
  }

  lemma {:induction false} SettledIsUnchanged(s: string)
    requires Settled(s)
    ensures Cleaned(s) == s
    decreases |s|
  {
    hide Settled, HasCdataEnd, NextRound, FirstComment, Cleaned;
    NothingToBlank(s);
    match NextRound(s)
    case Stop => CleanedStops(s);
    case Skip(at, close) =>
      CleanedSkips(s, at, close);
      SuffixIsSettled(s, at + 3);
      SettledIsUnchanged(s[at + 3..]);
  }

  /** Running the function again changes nothing. */
  lemma CleanedIsIdempotent(s: string)
    ensures Cleaned(Cleaned(s)) == Cleaned(s)
  {
    CleanedIsSettled(s);
    SettledIsUnchanged(Cleaned(s));
  }

  // ----- the loop

  lemma FindAfterBlank(x: string)
    ensures match Find(x, OPEN)
            case None => Find(" " + x, OPEN) == None
            case Some(i) => Find(" " + x, OPEN) == Some(i + 1)
  {
    var s := " " + x;
    assert s[1..] == x && s[0] == ' ';
  }

  lemma RoundAfterBlank(x: string)
    ensures match NextRound(x)
            case Stop => NextRound(" " + x) == Stop
            case Skip(a, c) => NextRound(" " + x) == Skip(a + 1, c + 1)
            case Blank(a, c) => NextRound(" " + x) == Blank(a + 1, c + 1)
  {
    var s := " " + x;
    FindAfterBlank(x);
    hide Find;
    if Find(x, OPEN).Some? {
      var i := Find(x, OPEN).value;
      assert s[i + 1..] == x[i..];
      if Find(x[i..], CLOSE).Some? {
        var e := Find(x[i..], CLOSE).value;
        assert s[i + 1..i + 1 + e] == x[i..i + e];
      }
    }
  }

  lemma BlankInFront(x: string, k: nat)
    requires k <= |x|
    ensures (" " + x)[..k + 1] == " " + x[..k] && (" " + x)[k + 1..] == x[k..]
  {
  }

  /** Searching goes over a blank as if it were not there. */
  lemma CleanedSkipsBlank(x: string)
    ensures Cleaned(" " + x) == " " + Cleaned(x)
  {
    hide NextRound, Blanks, Cleaned, FirstComment, HasCdataEnd;
    var s := " " + x;
    RoundAfterBlank(x);
    match NextRound(x)
    case Stop =>
      CleanedStops(x);
      CleanedStops(s);
    case Skip(at, close) =>
      CleanedSkips(x, at, close);
      CleanedSkips(s, at + 1, close + 1);
      BlankInFront(x, at + 3);
      assert " " + (x[..at + 3] + Cleaned(x[at + 3..])) == s[..at + 4] + Cleaned(s[at + 4..]);
    case Blank(at, close) =>
      CleanedBlanks(x, at, close);
      CleanedBlanks(s, at + 1, close + 1);
      BlankInFront(x, at);
      BlankInFront(x, close + 3);
  }

  lemma {:induction false} CleanedSkipsBlanks(n: nat, x: string)
    ensures Cleaned(Blanks(n) + x) == Blanks(n) + Cleaned(x)
    decreases n
  {
    hide Cleaned;
    if n == 0 {
      assert Blanks(0) + x == x && Blanks(0) + Cleaned(x) == Cleaned(x);
    } else {
      CleanedSkipsBlanks(n - 1, x);
      CleanedSkipsBlank(Blanks(n - 1) + x);
      assert Blanks(n) + x == " " + (Blanks(n - 1) + x);
      assert Blanks(n) + Cleaned(x) == " " + (Blanks(n - 1) + Cleaned(x));
    }
  }

  /** The comment starts still to be looked at. */
  function Marks(s: string): nat {
    if s == "" then 0 else (if s[0] == '<' then 1 else 0) + Marks(s[1..])
  }

  lemma {:induction false} MarksOfConcat(s: string, t: string)
    ensures Marks(s + t) == Marks(s) + Marks(t)
  {
    if s == "" {
      assert s + t == t;
    } else {
      MarksOfConcat(s[1..], t);
      assert (s + t)[1..] == s[1..] + t;
    }
  }

  lemma {:induction false} BlanksHaveNoMarks(n: nat)
    ensures Marks(Blanks(n)) == 0
    decreases n
  {
    if n > 0 {
      BlanksHaveNoMarks(n - 1);
      assert Blanks(n)[1..] == Blanks(n - 1);
    }
  }

  lemma OneMark()
    ensures Marks("<") == 1
  {
    assert "<"[1..] == "";
  }

  /** The comment at `at` is one mark less for the search, whether it is skipped or blanked. */
  lemma RoundTakesMark(s: string, at: nat, len: nat)
    requires at < at + len <= |s| && s[at] == '<'
    ensures Marks(s[at + len..]) < Marks(s) && Marks(Blanks(len) + s[at + len..]) < Marks(s)
  {
    hide Marks, Blanks;
    var gone, rest := s[at + 1..at + len], s[at + len..];
    assert s == s[..at] + ([s[at]] + (gone + rest));
    MarksOfConcat(s[..at], [s[at]] + (gone + rest));
    MarksOfConcat([s[at]], gone + rest);
    MarksOfConcat(gone, rest);
    MarksOfConcat(Blanks(len), rest);
    BlanksHaveNoMarks(len);
    OneMark();
  }

  /** What the search has passed and what it will make of the rest. */
  ghost function Foreseen(text: string, needle: nat): string
    requires needle <= |text|
  {
    text[..needle] + Cleaned(text[needle..])
  }

  lemma SkipIsForeseen(text: string, needle: nat, at: nat, close: nat)
    requires needle <= |text| && NextRound(text[needle..]) == Skip(at, close)
    ensures needle + at + 3 <= |text| && text[needle + at] == '<'
    ensures Foreseen(text, needle) == Foreseen(text, needle + at + 3)
  {
    hide NextRound, HasCdataEnd, Cleaned, FirstComment;
    var s := text[needle..];
    CleanedSkips(s, at, close);
    assert s[at + 3..] == text[needle + at + 3..];
    assert text[..needle] + (s[..at + 3] + Cleaned(s[at + 3..])) == text[..needle + at + 3] + Cleaned(s[at + 3..]);
  }

  lemma BlankIsForeseen(text: string, needle: nat, at: nat, close: nat, text': string)
    requires needle <= |text| && NextRound(text[needle..]) == Blank(at, close) && needle + close + 3 <= |text|
    requires at <= close && text' == text[..needle + at] + (Blanks(close + 3 - at) + text[needle + close + 3..])
    ensures Foreseen(text, needle) == Foreseen(text', needle + at)
  {
    hide NextRound, HasCdataEnd, FirstComment, Blanks, Cleaned;
    var s := text[needle..];
    var blanks, rest := Blanks(close + 3 - at), text[needle + close + 3..];
    CleanedBlanks(s, at, close);
    CleanedSkipsBlanks(close + 3 - at, rest);
    assert s[close + 3..] == rest;
    assert text'[needle + at..] == blanks + rest && text'[..needle + at] == text[..needle + at];
    assert text[..needle] + (s[..at] + blanks + Cleaned(rest)) == text[..needle + at] + (blanks + Cleaned(rest));
  }

  lemma BlankTakesMark(text: string, needle: nat, at: nat, close: nat)
    requires needle <= |text| && NextRound(text[needle..]) == Blank(at, close)
    requires at <= close && needle + close + 3 <= |text|
    ensures var text' := text[..needle + at] + (Blanks(close + 3 - at) + text[needle + close + 3..]);
            Marks(text'[needle + at..]) < Marks(text[needle..])
  {
    hide NextRound, Marks, Blanks, HasCdataEnd, Cleaned, FirstComment;
    var s := text[needle..];
    var text' := text[..needle + at] + (Blanks(close + 3 - at) + text[needle + close + 3..]);
    CleanedBlanks(s, at, close);
    RoundTakesMark(s, at, close + 3 - at);
    assert s[at + (close + 3 - at)..] == text[needle + close + 3..];
    assert text'[needle + at..] == Blanks(close + 3 - at) + text[needle + close + 3..];
  }

  /** The three searches of a round, from `needle` on. */
  method Search(contents: array<char>, needle: nat) returns (round: Round)
    requires needle <= contents.Length
    ensures round == NextRound(contents[needle..])
    ensures round.Skip? ==> needle + round.at + 3 <= contents.Length
    ensures round.Blank? ==> round.at + 2 <= round.close && needle + round.close + 3 <= contents.Length
  {
    hide Find, OccursAt, HasCdataEnd;
    ghost var s := contents[needle..];
    RoundIsFirst(s);
    var i := Find(contents[needle..], OPEN);
    if i == None {
      return Stop;
    }
    var start := needle + i.value;
    assert start <= contents.Length && s[i.value..] == contents[start..] by { FindOpen(s); }
    var e := Find(contents[start..], CLOSE);
    if e == None {
      return Stop;
    }
    assert start + e.value <= contents.Length by { FindClose(contents[start..]); }
    assert contents[start..start + e.value] == contents[start..][..e.value];
    assert s[i.value..i.value + e.value] == s[i.value..][..e.value];
    var cdataEnd := Find(contents[start..start + e.value], CDATA_END);
    if cdataEnd.Some? {
      return Skip(i.value, i.value + e.value);
    }
    return Blank(i.value, i.value + e.value);
  }

  /** `memset (from, ' ', to - from)` */
  method Memset(contents: array<char>, from: nat, to: nat)
    requires from <= to <= contents.Length
    modifies contents
    ensures contents[..] == old(contents[..from]) + (Blanks(to - from) + old(contents[to..]))
  {
    forall j | from <= j < to {
      contents[j] := ' ';
    }
  }

  /**
   `idol_pl_parser_cleanup_xml`, on the characters of the text in `contents`.
   After a blanking the search goes on from the same place.
   */
  method CleanupXml(contents: array<char>)
    modifies contents
    ensures contents[..] == Cleaned(old(contents[..]))
    ensures Settled(contents[..])
  {
    hide Cleaned, NextRound, Marks, Blanks, FirstComment, HasCdataEnd;
    var needle := 0;
    ghost var result := Cleaned(contents[..]);
    assert contents[0..] == contents[..] && contents[..0] == "";
    CleanedIsSettled(contents[..]);
    while true
      invariant needle <= contents.Length
      invariant Foreseen(contents[..], needle) == result
      decreases Marks(contents[needle..])
    {
      ghost var text := contents[..];
      var round := Search(contents, needle);
      match round
      case Stop =>
        CleanedStops(text[needle..]);
        assert text[..needle] + text[needle..] == text;
        return;
      case Skip(at, close) =>
        SkipIsForeseen(text, needle, at, close);
        RoundTakesMark(text[needle..], at, 3);
        assert text[needle..][at + 3..] == text[needle + at + 3..];
        needle := needle + at + 3;
      case Blank(at, close) =>
        BlankTakesMark(text, needle, at, close);
        BlankIsForeseen(text, needle, at, close,
            text[..needle + at] + (Blanks(close + 3 - at) + text[needle + close + 3..]));
        Memset(contents, needle + at, needle + close + 3);
        needle := needle + at;
    }
  }
}
