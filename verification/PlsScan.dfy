/**
 The numbered scan of the PLS parser (plparse/idol-pl-parser-pls.c:245-315):
 a 32-bit counter goes up from 1, the table is asked for `file<counter>`, and
 the loop ends once as many keys have been met as lines were counted.
 Iterations are numbered from 0, so the counter of an iteration is one more,
 wrapped to 32 bits.
 */
module PlsScan {
  import opened Decimal

  const WRAP := 0x1_0000_0000

  /** `%d` of a 32-bit unsigned number. */
  function PrintSigned(i: nat): string
    requires i < WRAP
  {
    if i < 0x8000_0000 then Itoa(i) else "-" + Itoa(WRAP - i)
  }

  function Counter(iteration: nat): (i: nat)
    ensures i < WRAP
  {
    (iteration + 1) % WRAP
  }

  /** The counter is printed as a signed number of 32 bits: -2147483648 comes behind 2147483647, and 0 behind -1. */
  lemma CounterIsSigned(iteration: nat)
    ensures var n := iteration % 0x1_0000_0000 + 1;
            PrintSigned(Counter(iteration)) ==
            if n < 0x8000_0000 then Itoa(n) else if n == 0x1_0000_0000 then Itoa(0) else "-" + Itoa(0x1_0000_0000 - n)
  {
  }

  function Key(name: string, i: nat): string
    requires i < WRAP
  {
    name + PrintSigned(i)
  }

  predicate IsHit(table: map<string, string>, iteration: nat) {
    Key("file", Counter(iteration)) in table
  }

  /** The iterations, among the first `rounds`, that find a key; the loop stops at `need` of them. */
  function Hits(table: map<string, string>, need: nat, rounds: nat): (hits: seq<nat>)
    ensures |hits| <= need
    ensures forall a :: 0 <= a < |hits| ==> hits[a] < rounds
  {
    if rounds == 0 then []
    else
      var before := Hits(table, need, rounds - 1);
      if |before| < need && IsHit(table, rounds - 1) then before + [rounds - 1] else before
  }

  /** The loop has ended within `rounds` iterations. */
  predicate Ended(table: map<string, string>, need: nat, rounds: nat) {
    |Hits(table, need, rounds)| == need
  }

  predicate AreHits(table: map<string, string>, hits: seq<nat>) {
    && (forall a, b :: 0 <= a < b < |hits| ==> hits[a] < hits[b])
    && (forall a :: 0 <= a < |hits| ==> IsHit(table, hits[a]))
  }

  lemma {:induction false} HitsAreOrdered(table: map<string, string>, need: nat, rounds: nat)
    ensures AreHits(table, Hits(table, need, rounds))
    decreases rounds
  {
    hide IsHit;
    if rounds > 0 {
      HitsAreOrdered(table, need, rounds - 1);
    }
  }

  lemma {:induction false} HitsAreComplete(table: map<string, string>, need: nat, rounds: nat, p: nat)
    requires p < rounds && IsHit(table, p)
    ensures p in Hits(table, need, rounds) || Ended(table, need, rounds)
    decreases rounds
  {
    hide IsHit;
    if p < rounds - 1 {
      HitsAreComplete(table, need, rounds - 1, p);
    }
  }

  lemma {:induction false} HitsGrow(table: map<string, string>, need: nat, rounds: nat, more: nat)
    ensures Hits(table, need, rounds) <= Hits(table, need, rounds + more)
    decreases more
  {
    hide IsHit;
    if more > 0 {
      HitsGrow(table, need, rounds, more - 1);
    }
  }

  // ----- when the loop ends

  /** The table has some key that the counter can print. */
  ghost predicate HasNumberedKey(table: map<string, string>) {
    exists i: nat :: i < WRAP && Key("file", i) in table
  }

  lemma CounterAt(passes: nat, i: nat)
    requires i < WRAP
    ensures Counter(passes * WRAP + (i + WRAP - 1) % WRAP) == i
  {
  }

  lemma PassHits(table: map<string, string>, need: nat, start: nat, i: nat, passes: nat)
    requires i < WRAP && Key("file", i) in table && start == passes * WRAP
    ensures var a, b := |Hits(table, need, start)|, |Hits(table, need, start + WRAP)|;
            b > a || b == need
  {
    hide Hits, Key;
    var offset := (i + WRAP - 1) % WRAP;
    var p := start + offset;
    CounterAt(passes, i);
    assert IsHit(table, p);
    HitsGrow(table, need, start, WRAP);
    HitsAreComplete(table, need, start + WRAP, p);
    assert p !in Hits(table, need, start);
  }

  lemma NextPass(passes: nat)
    ensures (passes + 1) * WRAP == passes * WRAP + WRAP
  {
  }

  /** Every pass of the counter over its range meets the key again. */
  lemma {:induction false} EveryPassHits(table: map<string, string>, need: nat, passes: nat, i: nat)
    requires i < WRAP && Key("file", i) in table
    ensures |Hits(table, need, passes * WRAP)| >= if passes < need then passes else need
    decreases passes
  {
    hide Hits, Key;
    if passes > 0 {
      EveryPassHits(table, need, passes - 1, i);
      PassHits(table, need, (passes - 1) * WRAP, i, passes - 1);
      NextPass(passes - 1);
    }
  }

  lemma {:induction false} NoHits(table: map<string, string>, need: nat, rounds: nat)
    requires !HasNumberedKey(table)
    ensures Hits(table, need, rounds) == []
    decreases rounds
  {
    if rounds > 0 {
      NoHits(table, need, rounds - 1);
    }
  }

  /** The scan ends exactly when nothing was counted or some key has a number that the counter prints. */
  lemma ScanEndsIff(table: map<string, string>, need: nat)
    ensures (exists rounds: nat :: Ended(table, need, rounds)) <==> need == 0 || HasNumberedKey(table)
  {
    hide Hits, Key;
    if need == 0 {
      assert Ended(table, need, 0);
    } else if HasNumberedKey(table) {
      var i: nat :| i < WRAP && Key("file", i) in table;
      EveryPassHits(table, need, need, i);
      assert Ended(table, need, need * WRAP);
    } else {
      forall rounds: nat
        ensures !Ended(table, need, rounds)
      {
        NoHits(table, need, rounds);
      }
    }
  }

  // ----- when every counted line is met once

  predicate NoDuplicates<T(==)>(s: seq<T>) {
    forall a, b :: 0 <= a < b < |s| ==> s[a] != s[b]
  }

  ghost function SetOf<T>(s: seq<T>): set<T> {
    set x | x in s
  }

  lemma {:induction false} SetSize<T>(s: seq<T>)
    ensures |SetOf(s)| <= |s|
    ensures |SetOf(s)| == |s| <==> NoDuplicates(s)
  {
    if s != [] {
      var front, last := s[..|s| - 1], s[|s| - 1];
      SetSize(front);
      assert s == front + [last];
      assert SetOf(s) == SetOf(front) + {last};
      if last in front {
        var a :| 0 <= a < |front| && front[a] == last;
        assert s[a] == s[|s| - 1];
        assert SetOf(s) == SetOf(front);
      } else {
        assert NoDuplicates(s) <==> NoDuplicates(front) by {
          assert NoDuplicates(s) ==> forall a, b :: 0 <= a < b < |front| ==> s[a] == front[a] && s[b] == front[b];
        }
      }
    }
  }

  lemma SubsetSize<T>(a: set<T>, b: set<T>)
    requires a <= b
    ensures |a| <= |b|
    ensures |a| == |b| ==> a == b
  {
    assert b == a + (b - a);
    if |a| == |b| {
      assert |b - a| == 0;
    }
  }

  lemma PrintedSign(i: nat)
    requires i < WRAP
    ensures PrintSigned(i) != "" && (PrintSigned(i)[0] == '-' <==> i >= 0x8000_0000)
  {
    hide Itoa;
  }

  lemma PrintSignedInjective(i: nat, j: nat)
    requires i < WRAP && j < WRAP && PrintSigned(i) == PrintSigned(j)
    ensures i == j
  {
    hide Itoa;
    if i < 0x8000_0000 && j < 0x8000_0000 {
      ItoaInjective(i, j);
    } else if i >= 0x8000_0000 && j >= 0x8000_0000 {
      assert PrintSigned(i)[1..] == Itoa(WRAP - i) && PrintSigned(j)[1..] == Itoa(WRAP - j);
      ItoaInjective(WRAP - i, WRAP - j);
    } else {
      PrintedSign(i);
      PrintedSign(j);
    }
  }

  lemma KeyHasName(name: string, i: nat)
    requires i < WRAP
    ensures name <= Key(name, i)
  {
    hide PrintSigned;
  }

  lemma KeyInjective(name: string, i: nat, j: nat)
    requires i < WRAP && j < WRAP && Key(name, i) == Key(name, j)
    ensures i == j
  {
    hide PrintSigned;
    assert Key(name, i)[|name|..] == PrintSigned(i) && Key(name, j)[|name|..] == PrintSigned(j);
    PrintSignedInjective(i, j);
  }

  /** The counted keys of the table: `keys` lists one for each counted line, in lower case. */
  ghost predicate Counted(table: map<string, string>, keys: seq<string>) {
    && (forall k <- keys :: k in table)
    && (forall k: string :: k in table && "file" <= k ==> k in keys)
  }

  ghost predicate IsNumbered(key: string) {
    exists i: nat :: i < WRAP && key == Key("file", i)
  }

  /** The keys met on a run. */
  function Met(hits: seq<nat>): (r: seq<string>)
    ensures |r| == |hits|
  {
    seq(|hits|, a requires 0 <= a < |hits| => Key("file", Counter(hits[a])))
  }

  /** The scan ends with every counted line met exactly once. */
  ghost predicate MeetsEachOnce(table: map<string, string>, keys: seq<string>, rounds: nat) {
    && Ended(table, |keys|, rounds)
    && NoDuplicates(Met(Hits(table, |keys|, rounds)))
    && SetOf(Met(Hits(table, |keys|, rounds))) == SetOf(keys)
  }

  lemma MetAreCounted(table: map<string, string>, keys: seq<string>, rounds: nat)
    requires Counted(table, keys)
    ensures SetOf(Met(Hits(table, |keys|, rounds))) <= SetOf(keys)
  {
    hide Hits, Key;
    HitsAreOrdered(table, |keys|, rounds);
    var hits := Hits(table, |keys|, rounds);
    forall a | 0 <= a < |hits|
      ensures Met(hits)[a] in keys
    {
      assert IsHit(table, hits[a]);
      KeyHasName("file", Counter(hits[a]));
    }
  }

  lemma OnceMeansDistinctAndNumbered(table: map<string, string>, keys: seq<string>, rounds: nat)
    requires Counted(table, keys) && Ended(table, |keys|, rounds)
    requires NoDuplicates(Met(Hits(table, |keys|, rounds)))
    ensures MeetsEachOnce(table, keys, rounds)
    ensures NoDuplicates(keys) && forall k <- keys :: IsNumbered(k)
  {
    hide Hits, NoDuplicates, Key;
    var met := Met(Hits(table, |keys|, rounds));
    MetAreCounted(table, keys, rounds);
    SetSize(met);
    SetSize(keys);
    SubsetSize(SetOf(met), SetOf(keys));
    forall k | k in keys
      ensures IsNumbered(k)
    {
      assert k in SetOf(keys);
      assert k in met;
    }
  }

  lemma HitsOfFirstPassAreDistinct(table: map<string, string>, need: nat)
    ensures NoDuplicates(Met(Hits(table, need, WRAP)))
  {
    hide Hits, Key;
    var hits := Hits(table, need, WRAP);
    HitsAreOrdered(table, need, WRAP);
    forall a, b | 0 <= a < b < |hits|
      ensures Met(hits)[a] != Met(hits)[b]
    {
      assert hits[a] < hits[b] < WRAP;
      if Met(hits)[a] == Met(hits)[b] {
        KeyInjective("file", Counter(hits[a]), Counter(hits[b]));
      }
    }
  }

  lemma DistinctAndNumberedMeansOnce(table: map<string, string>, keys: seq<string>)
    requires Counted(table, keys) && NoDuplicates(keys) && forall k <- keys :: IsNumbered(k)
    ensures MeetsEachOnce(table, keys, WRAP)
  {
    hide Hits, NoDuplicates, Key;
    var hits := Hits(table, |keys|, WRAP);
    HitsOfFirstPassAreDistinct(table, |keys|);
    MetAreCounted(table, keys, WRAP);
    SetSize(Met(hits));
    SetSize(keys);
    if !Ended(table, |keys|, WRAP) {
      forall k | k in keys
        ensures k in Met(hits)
      {
        var i: nat :| i < WRAP && k == Key("file", i);
        var p := (i + WRAP - 1) % WRAP;
        CounterAt(0, i);
        assert IsHit(table, p);
        HitsAreComplete(table, |keys|, WRAP, p);
        var a :| 0 <= a < |hits| && hits[a] == p;
        assert Met(hits)[a] == k;
      }
      assert SetOf(keys) <= SetOf(Met(hits));
      SubsetSize(SetOf(keys), SetOf(Met(hits)));
    }
    SubsetSize(SetOf(Met(hits)), SetOf(keys));
  }

  /**
   The scan meets each counted line exactly once if and only if the counted
   lines have different keys, all of them `file` followed by a number as the
   counter prints it.
   */
  lemma MeetsEachOnceIff(table: map<string, string>, keys: seq<string>)
    requires Counted(table, keys)
    ensures (exists rounds: nat :: MeetsEachOnce(table, keys, rounds))
       <==> NoDuplicates(keys) && forall k <- keys :: IsNumbered(k)
  {
    hide Hits, NoDuplicates, IsNumbered;
    if NoDuplicates(keys) && forall k <- keys :: IsNumbered(k) {
      DistinctAndNumberedMeansOnce(table, keys);
    }
    if exists rounds: nat :: MeetsEachOnce(table, keys, rounds) {
      var rounds: nat :| MeetsEachOnce(table, keys, rounds);
      OnceMeansDistinctAndNumbered(table, keys, rounds);
    }
  }

  lemma FirstPassCounter(p: nat)
    ensures p < WRAP - 1 ==> Counter(p) == p + 1
  {
  }

  /** In every pass the counter grows, so keys are met in increasing order of their numbers (1, 2, …). */
  lemma MetInOrder(table: map<string, string>, need: nat, a: nat, b: nat)
    requires a < b < |Hits(table, need, WRAP - 1)|
    ensures var hits := Hits(table, need, WRAP - 1);
            1 <= Counter(hits[a]) < Counter(hits[b]) < WRAP
  {
    hide Hits, Counter, IsHit;
    HitsAreOrdered(table, need, WRAP - 1);
    var hits := Hits(table, need, WRAP - 1);
    FirstPassCounter(hits[a]);
    FirstPassCounter(hits[b]);
  }

  /** Keys numbered 1 to `need` without holes are met in the first `need` iterations. */
  lemma {:induction false} ConsecutiveHits(table: map<string, string>, need: nat, rounds: nat)
    requires rounds <= need && need < WRAP
    requires forall i :: 1 <= i <= need ==> Key("file", i) in table
    ensures Hits(table, need, rounds) == seq(rounds, p => p)
    decreases rounds
  {
    hide Key;
    if rounds > 0 {
      ConsecutiveHits(table, need, rounds - 1);
      assert Counter(rounds - 1) == rounds;
      assert IsHit(table, rounds - 1);
    }
  }
}
