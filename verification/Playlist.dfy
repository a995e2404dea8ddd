/**
 Playlists in memory (plparse/idol-pl-playlist.c) as far as the writers read
 them: a list of entries with an optional URI and an optional title.
 `idol_pl_parser_num_entries` (plparse/idol-pl-parser.c:903-941) counts the
 entries a writer will write.
 */
module Playlist {
  import opened CText

  datatype Entry = Entry(uri: Option<string>, title: Option<string>)

  /** The entry has a URI whose scheme is not ignored. */
  predicate IsValid(e: Entry, ignored: string -> bool) {
    e.uri.Some? && !ignored(e.uri.value)
  }

  /** The entries a writer writes, in order. */
  function Kept(entries: seq<Entry>, ignored: string -> bool): (r: seq<Entry>)
    ensures |r| <= |entries|
    ensures forall k :: 0 <= k < |r| ==> IsValid(r[k], ignored) && r[k] in entries
  {
    if entries == [] then []
    else
      var front, last := entries[..|entries| - 1], entries[|entries| - 1];
      Kept(front, ignored) + (if IsValid(last, ignored) then [last] else [])
  }

  lemma KeptStep(entries: seq<Entry>, i: nat, ignored: string -> bool)
    requires i < |entries|
    ensures Kept(entries[..i + 1], ignored)
         == if IsValid(entries[i], ignored) then Kept(entries[..i], ignored) + [entries[i]]
            else Kept(entries[..i], ignored)
  {
    assert entries[..i + 1][..i] == entries[..i];
  }

  method NumEntries(entries: seq<Entry>, ignored: string -> bool) returns (count: int)
    ensures count == |Kept(entries, ignored)|
  {
    var numEntries := |entries|;
    var i, skipped := 0, 0;
    while i < |entries|
      invariant 0 <= i <= |entries|
      invariant skipped == i - |Kept(entries[..i], ignored)|
    {
      KeptStep(entries, i, ignored);
      var e := entries[i];
      i := i + 1;
      if e.uri == None {
        skipped := skipped + 1;
        continue;
      }
      if ignored(e.uri.value) {
        skipped := skipped + 1;
      }
    }
    assert entries[..|entries|] == entries;
    count := numEntries - skipped;
  }
}
