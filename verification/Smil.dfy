/**
 The SMIL walk (plparse/idol-pl-parser-smil.c:79-226) over a parsed tree.  An
 entry waits until the next media sibling, because a later `textstream` sibling
 may still give it a subtitle; other siblings are walked at once.  The URIs of
 an entry are kept as they stand, before they are resolved against the base.
 */
module Smil {
  import opened CText
  import opened XmlTree

  // ----- properties of nodes

  /** `strcasecmp (a, b) == 0` */
  predicate SameName(a: string, b: string) {
    Lower(a) == Lower(b)
  }

  /** `xml_parser_get_property` (plparse/xmlparser.c:760-778): the first property with the name. */
  function Property(props: seq<Prop>, name: string): Option<string> {
    if props == [] then None
    else if SameName(props[0].name, name) then props[0].value
    else Property(props[1..], name)
  }

  function Get(node: Node, name: string): Option<string> {
    Property(PropsOf(node), name)
  }

  predicate IsMedia(node: Node) {
    SameName(NameOf(node), "video") || SameName(NameOf(node), "audio") || SameName(NameOf(node), "media")
  }

  predicate IsTextStream(node: Node) {
    !IsMedia(node) && SameName(NameOf(node), "textstream")
  }

  predicate IsOther(node: Node) {
    !IsMedia(node) && !IsTextStream(node)
  }

  /** What the walk remembers of a media node. */
  datatype Media = Media(
    uri: Option<string>,
    title: Option<string>,
    author: Option<string>,
    dur: Option<string>,
    clipBegin: Option<string>,
    summary: Option<string>,
    copyright: Option<string>)

  const NO_MEDIA := Media(None, None, None, None, None, None, None)

  function MediaOf(node: Node): Media {
    Media(Get(node, "src"), Get(node, "title"), Get(node, "author"), Get(node, "dur"), Get(node, "clip-begin"),
          Get(node, "abstract"), Get(node, "copyright"))
  }

  datatype Entry = Entry(media: Media, title: Option<string>, subtitle: Option<string>)

  /** The entry of a media node, if it has a `src`. */
  function EntryFor(media: Media, subtitle: Option<string>, parentTitle: Option<string>): seq<Entry> {
    if media.uri.None? then []
    else [Entry(media, if media.title.Some? then media.title else parentTitle, subtitle)]
  }

  // ----- the walk, as a function of the siblings left and the entry that waits

  function Walk(nodes: seq<Node>, media: Media, subtitle: Option<string>, parentTitle: Option<string>): seq<Entry>
    decreases nodes
  {
    if nodes == [] then EntryFor(media, subtitle, parentTitle)
    else
      var (node, rest) := (nodes[0], nodes[1..]);
      assert nodes[..0] == [];
      if IsMedia(node) then EntryFor(media, subtitle, parentTitle) + Walk(rest, MediaOf(node), None, parentTitle)
      else if IsTextStream(node) then Walk(rest, media, Get(node, "src"), parentTitle)
      else Walk(ChildOf(node), NO_MEDIA, None, parentTitle) + Walk(rest, media, subtitle, parentTitle)
  }

  // ----- the entries, by position and without a waiting entry

  function NextMedia(nodes: seq<Node>): (k: nat)
    ensures k <= |nodes|
    ensures forall i :: 0 <= i < k ==> !IsMedia(nodes[i])
    ensures k < |nodes| ==> IsMedia(nodes[k])
  {
    if nodes == [] || IsMedia(nodes[0]) then 0 else 1 + NextMedia(nodes[1..])
  }

  /** The `src` of the last `textstream`, or the default if there is none. */
  function Subtitle(nodes: seq<Node>, default: Option<string>): Option<string> {
    if nodes == [] then default
    else
      var last := nodes[|nodes| - 1];
      if IsTextStream(last) then Get(last, "src") else Subtitle(nodes[..|nodes| - 1], default)
  }

  /** The entries of the reached media nodes, in document order. */
  function Reached(nodes: seq<Node>, parentTitle: Option<string>): seq<Entry>
    decreases nodes
  {
    if nodes == [] then []
    else
      var (node, rest) := (nodes[0], nodes[1..]);
      assert nodes[..0] == [];
      var own :=
        if IsMedia(node) then EntryFor(MediaOf(node), Subtitle(rest[..NextMedia(rest)], None), parentTitle)
        else if IsTextStream(node) then []
        else Reached(ChildOf(node), parentTitle);
      own + Reached(rest, parentTitle)
  }

  lemma {:induction false} SubtitleOfFirst(node: Node, nodes: seq<Node>, default: Option<string>)
    ensures Subtitle([node] + nodes, default)
         == Subtitle(nodes, if IsTextStream(node) then Get(node, "src") else default)
    decreases |nodes|
  {
    hide IsTextStream, Get;
    if nodes == [] {
      assert [node] + nodes == [node] && [node][..0] == [];
    } else {
      var front, last := nodes[..|nodes| - 1], nodes[|nodes| - 1];
      SubtitleOfFirst(node, front, default);
      assert ([node] + nodes)[..|nodes|] == [node] + front;
    }
  }

  lemma NextMediaSegment(nodes: seq<Node>)
    requires nodes != [] && !IsMedia(nodes[0])
    ensures NextMedia(nodes) == 1 + NextMedia(nodes[1..])
    ensures nodes[..NextMedia(nodes)] == [nodes[0]] + nodes[1..][..NextMedia(nodes[1..])]
  {
    hide IsMedia;
  }

  lemma WalkOfNone(media: Media, subtitle: Option<string>, parentTitle: Option<string>)
    ensures Walk([], media, subtitle, parentTitle) == EntryFor(media, subtitle, parentTitle)
    ensures Reached([], parentTitle) == [] && Subtitle([], subtitle) == subtitle
  {
  }

  lemma WalkUnfolds(nodes: seq<Node>, media: Media, subtitle: Option<string>, parentTitle: Option<string>)
    requires nodes != []
    ensures var (node, rest) := (nodes[0], nodes[1..]);
            Walk(nodes, media, subtitle, parentTitle)
            == if IsMedia(node) then
                 EntryFor(media, subtitle, parentTitle) + Walk(rest, MediaOf(node), None, parentTitle)
               else if IsTextStream(node) then Walk(rest, media, Get(node, "src"), parentTitle)
               else Walk(ChildOf(node), NO_MEDIA, None, parentTitle) + Walk(rest, media, subtitle, parentTitle)
  {
    hide IsMedia, IsTextStream, EntryFor, Get, MediaOf, ChildOf;
  }

  lemma ReachedUnfolds(nodes: seq<Node>, parentTitle: Option<string>)
    requires nodes != []
    ensures var (node, rest) := (nodes[0], nodes[1..]);
            Reached(nodes, parentTitle)
            == (if IsMedia(node) then EntryFor(MediaOf(node), Subtitle(rest[..NextMedia(rest)], None), parentTitle)
                else if IsTextStream(node) then [] else Reached(ChildOf(node), parentTitle))
               + Reached(rest, parentTitle)
  {
    hide IsMedia, IsTextStream, EntryFor, Get, MediaOf, ChildOf, Subtitle, NextMedia;
  }

  lemma SubtitleOfNone(nodes: seq<Node>, default: Option<string>)
    requires nodes == []
    ensures Subtitle(nodes, default) == default
  {
  }

  lemma ChildrenAreSmaller(nodes: seq<Node>)
    requires nodes != []
    ensures nodes decreases to ChildOf(nodes[0])
  {
    assert nodes[..0] == [];
  }

  lemma NoMediaNoEntry(parentTitle: Option<string>)
    ensures forall subtitle :: EntryFor(NO_MEDIA, subtitle, parentTitle) == []
  {
  }

  /**
   The walk emits every media node with a `src` that it reaches exactly once,
   each with the `src` of the last `textstream` sibling between it and the next
   media sibling, whatever waits at the start.
   */
  lemma {:induction false} WalkEmitsReached(nodes: seq<Node>, media: Media, subtitle: Option<string>,
                                            parentTitle: Option<string>)
    ensures multiset(Walk(nodes, media, subtitle, parentTitle))
         == multiset(EntryFor(media, Subtitle(nodes[..NextMedia(nodes)], subtitle), parentTitle))
            + multiset(Reached(nodes, parentTitle))
    decreases nodes
  {
    hide IsMedia, EntryFor, Get, MediaOf, Subtitle, ChildOf, Walk, Reached;
    if nodes == [] {
      WalkOfNone(media, subtitle, parentTitle);
    } else {
      var node, rest := nodes[0], nodes[1..];
      WalkUnfolds(nodes, media, subtitle, parentTitle);
      ReachedUnfolds(nodes, parentTitle);
      if IsMedia(node) {
        WalkEmitsReached(rest, MediaOf(node), None, parentTitle);
        SubtitleOfNone(nodes[..0], subtitle);
      } else {
        NextMediaSegment(nodes);
        SubtitleOfFirst(node, rest[..NextMedia(rest)], subtitle);
        if IsTextStream(node) {
          WalkEmitsReached(rest, media, Get(node, "src"), parentTitle);
        } else {
          WalkEmitsReached(rest, media, subtitle, parentTitle);
          ChildrenAreSmaller(nodes);
          WalkEmitsReached(ChildOf(node), NO_MEDIA, None, parentTitle);
          NoMediaNoEntry(parentTitle);
        }
      }
    }
  }

  lemma EntriesAreReached(nodes: seq<Node>, parentTitle: Option<string>)
    ensures multiset(Walk(nodes, NO_MEDIA, None, parentTitle)) == multiset(Reached(nodes, parentTitle))
  {
    hide Walk, Reached, Subtitle, NextMedia;
    WalkEmitsReached(nodes, NO_MEDIA, None, parentTitle);
    NoMediaNoEntry(parentTitle);
  }

  lemma EmittedAreReached(before: seq<Entry>, after: seq<Entry>, nodes: seq<Node>, parentTitle: Option<string>)
    ensures after == before + Walk(nodes, NO_MEDIA, None, parentTitle) ==>
              multiset(after) == multiset(before) + multiset(Reached(nodes, parentTitle))
  {
    hide Walk, Reached;
    EntriesAreReached(nodes, parentTitle);
  }

  // ----- the order of the entries

  /** The walks of the other nodes. */
  function Nested(nodes: seq<Node>, parentTitle: Option<string>): seq<Entry> {
    if nodes == [] then []
    else
      (if IsOther(nodes[0]) then Walk(ChildOf(nodes[0]), NO_MEDIA, None, parentTitle) else [])
      + Nested(nodes[1..], parentTitle)
  }

  lemma NestedOfNone(parentTitle: Option<string>)
    ensures Nested([], parentTitle) == []
  {
  }

  lemma NestedOfFirst(node: Node, nodes: seq<Node>, parentTitle: Option<string>)
    ensures Nested([node] + nodes, parentTitle)
         == (if IsOther(node) then Walk(ChildOf(node), NO_MEDIA, None, parentTitle) else [])
            + Nested(nodes, parentTitle)
  {
    hide IsOther, Walk, ChildOf;
    assert ([node] + nodes)[1..] == nodes;
  }

  lemma Reassociate<T>(a: seq<T>, b: seq<T>, c: seq<T>, d: seq<T>)
    ensures a + (b + c + d) == a + b + c + d
    ensures [] + b == b
  {
  }

  /** An entry comes after everything nested between it and the next media sibling, and before that sibling's entry. */
  lemma {:induction false} EntryComesAfterNested(nodes: seq<Node>, media: Media, subtitle: Option<string>,
                                                 parentTitle: Option<string>)
    ensures var k := NextMedia(nodes);
            var waiting := EntryFor(media, Subtitle(nodes[..k], subtitle), parentTitle);
            Walk(nodes, media, subtitle, parentTitle)
            == Nested(nodes[..k], parentTitle) + waiting
               + if k == |nodes| then [] else Walk(nodes[k + 1..], MediaOf(nodes[k]), None, parentTitle)
    decreases |nodes|
  {
    hide IsMedia, EntryFor, Get, MediaOf, Subtitle, ChildOf, Walk, Nested;
    if nodes == [] {
      WalkOfNone(media, subtitle, parentTitle);
      NestedOfNone(parentTitle);
    } else {
      var node, rest := nodes[0], nodes[1..];
      WalkUnfolds(nodes, media, subtitle, parentTitle);
      if IsMedia(node) {
        assert nodes[..0] == [];
        SubtitleOfNone(nodes[..0], subtitle);
        NestedOfNone(parentTitle);
      } else {
        var j := NextMedia(rest);
        var waiting := if IsTextStream(node) then Get(node, "src") else subtitle;
        NextMediaSegment(nodes);
        SubtitleOfFirst(node, rest[..j], subtitle);
        NestedOfFirst(node, rest[..j], parentTitle);
        EntryComesAfterNested(rest, media, waiting, parentTitle);
        var tail := if j == |rest| then [] else Walk(rest[j + 1..], MediaOf(rest[j]), None, parentTitle);
        assert j < |rest| ==> nodes[j + 2..] == rest[j + 1..];
        assert tail == if j + 1 == |nodes| then [] else Walk(nodes[j + 2..], MediaOf(nodes[j + 1]), None, parentTitle);
        Reassociate(if IsOther(node) then Walk(ChildOf(node), NO_MEDIA, None, parentTitle) else [],
                    Nested(rest[..j], parentTitle), EntryFor(media, Subtitle(rest[..j], waiting), parentTitle), tail);
      }
    }
  }

  // ----- the document

  datatype Result = Error | Success

  /**
   Whether `parse_smil_entry` ends with SUCCESS: for an entry, or for any node
   that is walked, since a walk never returns 0.
   */
  predicate Succeeds(nodes: seq<Node>) {
    exists i :: 0 <= i < |nodes| && (IsOther(nodes[i]) || (IsMedia(nodes[i]) && Get(nodes[i], "src").Some?))
  }

  /** `parse_smil_head`: the content of the first title that has one. */
  function HeadTitle(nodes: seq<Node>): Option<string> {
    if nodes == [] then None
    else
      var node := nodes[0];
      var prop := Get(node, "name");
      if SameName(NameOf(node), "meta") && prop.Some? && SameName(prop.value, "title") && Get(node, "content").Some?
      then Get(node, "content")
      else HeadTitle(nodes[1..])
  }

  predicate IsBody(node: Node) {
    SameName(NameOf(node), "body")
  }

  /** The entries of the document's children; `title` is the title found so far. */
  function Entries(nodes: seq<Node>, title: Option<string>): seq<Entry> {
    if nodes == [] then []
    else if IsBody(nodes[0]) then
      Walk(ChildOf(nodes[0]), NO_MEDIA, None, title) + Entries(nodes[1..], title)
    else
      var found := if title.None? && SameName(NameOf(nodes[0]), "head") then HeadTitle(ChildOf(nodes[0])) else title;
      Entries(nodes[1..], found)
  }

  // ----- the imperative form

  lemma NothingSucceeds(nodes: seq<Node>)
    ensures !Succeeds(nodes[..0])
  {
  }

  lemma SucceedsOfMore(nodes: seq<Node>, i: nat)
    requires i < |nodes|
    ensures Succeeds(nodes[..i + 1])
       <==> Succeeds(nodes[..i]) || IsOther(nodes[i]) || (IsMedia(nodes[i]) && Get(nodes[i], "src").Some?)
  {
    hide IsOther, IsMedia, Get;
    var more := nodes[..i + 1];
    assert more[i] == nodes[i];
    assert forall j :: 0 <= j < i ==> more[j] == nodes[..i][j];
  }

  lemma SourceOfMedia(node: Node)
    ensures MediaOf(node).uri == Get(node, "src")
  {
  }

  lemma ChildrenDecrease(parent: Node, node: Node)
    requires node in ChildOf(parent)
    ensures parent decreases to node
  {
  }

  class Parser {
    var emitted: seq<Entry>

    constructor ()
      ensures emitted == []
    {
      emitted := [];
    }

    method Add(media: Media, title: Option<string>, subtitle: Option<string>)
      modifies this
      ensures emitted == old(emitted) + [Entry(media, title, subtitle)]
    {
      emitted := emitted + [Entry(media, title, subtitle)];
    }

    method ParseSmilEntry(parent: Node, parentTitle: Option<string>) returns (retval: Result)
      modifies this
      ensures emitted == old(emitted) + Walk(ChildOf(parent), NO_MEDIA, None, parentTitle)
      ensures multiset(emitted) == multiset(old(emitted)) + multiset(Reached(ChildOf(parent), parentTitle))
      ensures retval == Success <==> Succeeds(ChildOf(parent))
      decreases parent
    {
      hide IsMedia, IsTextStream, Get, Walk, Succeeds, MediaOf, ChildOf, SameName, Reached;
      var nodes := ChildOf(parent);
      var media, subtitle, added := NO_MEDIA, None, false;
      ghost var last := 0;
      ghost var before := emitted;
      var i := 0;
      retval := Error;
      assert nodes[0..] == nodes;
      NothingSucceeds(nodes);
      while i < |nodes|
        invariant 0 <= i <= |nodes| && !added
        invariant emitted + Walk(nodes[i..], media, subtitle, parentTitle)
                  == before + Walk(nodes, NO_MEDIA, None, parentTitle)
        invariant retval == Success || media.uri.Some? <==> Succeeds(nodes[..i])
      {
        var node := nodes[i];
        WalkUnfolds(nodes[i..], media, subtitle, parentTitle);
        SucceedsOfMore(nodes, i);
        assert nodes[i..][1..] == nodes[i + 1..];
        i := i + 1;
        ghost var rest := nodes[i..];
        if IsMedia(node) {
          ghost var now := emitted;
          if media.uri.Some? && !added {
            Add(media, if media.title.Some? then media.title else parentTitle, subtitle);
            added := true;
            retval := Success;
          }
          assert emitted == now + EntryFor(media, subtitle, parentTitle);
          media := MediaOf(node);
          SourceOfMedia(node);
          subtitle := None;
          added := false;
        } else if IsTextStream(node) {
          subtitle := Get(node, "src");
        } else {
          ChildrenDecrease(parent, node);
          var nested := ParseSmilEntry(node, parentTitle);
          retval := Success;
        }
      }
      assert nodes[..i] == nodes && nodes[i..] == [];
      WalkOfNone(media, subtitle, parentTitle);
      if media.uri.Some? && !added {
        Add(media, if media.title.Some? then media.title else parentTitle, subtitle);
        added := true;
        retval := Success;
      }
      EmittedAreReached(before, emitted, nodes, parentTitle);
    }

    method ParseSmilEntries(doc: Node) returns (retval: Result)
      modifies this
      ensures emitted == old(emitted) + Entries(ChildOf(doc), None)
      ensures retval == Success <==> exists node <- ChildOf(doc) :: IsBody(node)
    {
      hide Walk, SameName, ChildOf, NameOf, IsBody, HeadTitle;
      var nodes := ChildOf(doc);
      var title: Option<string> := None;
      ghost var before := emitted;
      var i := 0;
      retval := Error;
      assert nodes[0..] == nodes;
      while i < |nodes|
        invariant 0 <= i <= |nodes|
        invariant emitted + Entries(nodes[i..], title) == before + Entries(nodes, None)
        invariant retval == Success <==> exists node <- nodes[..i] :: IsBody(node)
      {
        var node := nodes[i];
        assert nodes[i..][1..] == nodes[i + 1..];
        assert nodes[..i + 1] == nodes[..i] + [node];
        i := i + 1;
        if IsBody(node) {
          var nested := ParseSmilEntry(node, title);
          retval := Success;
        } else if title == None {
          if SameName(NameOf(node), "head") {
            title := HeadTitle(ChildOf(node));
          }
        }
      }
      assert nodes[..i] == nodes;
    }

    method AddSmilWithDoc(doc: Node) returns (retval: Result)
      modifies this
      ensures retval == Success <==> SameName(NameOf(doc), "smil") && exists node <- ChildOf(doc) :: IsBody(node)
      ensures emitted == old(emitted) + if SameName(NameOf(doc), "smil") then Entries(ChildOf(doc), None) else []
    {
      if !SameName(NameOf(doc), "smil") {
        return Error;
      }
      retval := ParseSmilEntries(doc);
    }
  }
}
