/**
 The SMIL walk by the names that are written in a document
 (plparse/idol-pl-parser-smil.c:79-226): which nodes are entries, where their
 fields come from, and which title they fall back on.
 */
module SmilNames {
  import opened CText
  import opened XmlTree
  import opened Smil

  /** The node's name, in small letters. */
  function LowerName(node: Node): string {
    Lower(NameOf(node))
  }

  /** The property is the first of its name, in whatever letters. */
  predicate IsFirst(props: seq<Prop>, name: string, k: nat)
    requires k < |props|
  {
    Lower(props[k].name) == name && forall j :: 0 <= j < k ==> Lower(props[j].name) != name
  }

  /** `value` is that of the first property of the name, or there is none. */
  predicate HasProperty(node: Node, name: string, value: Option<string>) {
    var props := PropsOf(node);
    && (forall k :: 0 <= k < |props| && IsFirst(props, name, k) ==> value == props[k].value)
    && ((forall k :: 0 <= k < |props| ==> Lower(props[k].name) != name) ==> value == None)
  }

  lemma {:induction false} PropertyIsFirst(props: seq<Prop>, name: string)
    requires Lower(name) == name
    ensures forall k :: 0 <= k < |props| && IsFirst(props, name, k) ==> Property(props, name) == props[k].value
    ensures (forall k :: 0 <= k < |props| ==> Lower(props[k].name) != name) ==> Property(props, name) == None
    decreases |props|
  {
    hide Lower;
    if props != [] {
      PropertyIsFirst(props[1..], name);
      if !SameName(props[0].name, name) {
        forall k | 0 <= k < |props| && IsFirst(props, name, k)
          ensures k > 0 && IsFirst(props[1..], name, k - 1)
        {
          assert forall j :: 0 <= j < k - 1 ==> props[1..][j] == props[j + 1];
        }
      }
    }
  }

  lemma GetHasProperty(node: Node, name: string)
    requires Lower(name) == name
    ensures HasProperty(node, name, Get(node, name))
  {
    hide Lower;
    PropertyIsFirst(PropsOf(node), name);
  }

  /** Two values that a property might have are the same. */
  lemma {:induction false} FirstExists(props: seq<Prop>, name: string) returns (k: nat)
    requires exists j :: 0 <= j < |props| && Lower(props[j].name) == name
    ensures k < |props| && IsFirst(props, name, k)
    decreases |props|
  {
    hide Lower;
    var n := |props| - 1;
    if j :| 0 <= j < n && Lower(props[j].name) == name {
      assert props[..n][j] == props[j];
      k := FirstExists(props[..n], name);
    } else {
      k := n;
    }
  }

  lemma PropertyIsUnique(node: Node, name: string, value: Option<string>)
    requires Lower(name) == name && HasProperty(node, name, value)
    ensures value == Get(node, name)
  {
    hide Lower, IsFirst, Property;
    GetHasProperty(node, name);
    var props := PropsOf(node);
    if j :| 0 <= j < |props| && Lower(props[j].name) == name {
      var k := FirstExists(props, name);
    }
  }

  lemma SmallNames()
    ensures Lower("video") == "video" && Lower("audio") == "audio" && Lower("media") == "media"
    ensures Lower("textstream") == "textstream" && Lower("body") == "body" && Lower("head") == "head"
    ensures Lower("src") == "src" && Lower("title") == "title" && Lower("author") == "author"
    ensures Lower("dur") == "dur" && Lower("clip-begin") == "clip-begin" && Lower("abstract") == "abstract"
    ensures Lower("copyright") == "copyright" && Lower("name") == "name" && Lower("content") == "content"
    ensures Lower("meta") == "meta" && Lower("smil") == "smil"
  {
  }

  const MEDIA := {"video", "audio", "media"}

  /** What the nodes of each name are. */
  lemma KindsByName(node: Node)
    ensures IsMedia(node) <==> LowerName(node) in MEDIA
    ensures IsTextStream(node) <==> LowerName(node) == "textstream"
    ensures IsBody(node) <==> LowerName(node) == "body"
  {
    hide Lower;
    SmallNames();
  }

  // ----- the entries of siblings

  /** The entry has its fields from the properties of the node, and the parent's title if the node has none. */
  predicate IsEntryOf(e: Entry, node: Node, parentTitle: Option<string>) {
    && e.media.uri.Some? && HasProperty(node, "src", e.media.uri)
    && HasProperty(node, "author", e.media.author) && HasProperty(node, "dur", e.media.dur)
    && HasProperty(node, "clip-begin", e.media.clipBegin) && HasProperty(node, "abstract", e.media.summary)
    && HasProperty(node, "copyright", e.media.copyright)
    && HasProperty(node, "title", e.media.title)
    && e.title == if e.media.title.Some? then e.media.title else parentTitle
  }

  predicate AreEntriesOf(es: seq<Entry>, nodes: seq<Node>, parentTitle: Option<string>) {
    |es| == |nodes| && forall k :: 0 <= k < |es| ==> IsEntryOf(es[k], nodes[k], parentTitle)
  }

  /** A media node with a source. */
  predicate IsListed(node: Node) {
    LowerName(node) in MEDIA && !HasProperty(node, "src", None)
  }

  function Listed(nodes: seq<Node>): seq<Node> {
    if nodes == [] then [] else (if IsListed(nodes[0]) then [nodes[0]] else []) + Listed(nodes[1..])
  }

  /** Nodes of other names have nothing in them that would be emitted in between. */
  predicate NothingNested(nodes: seq<Node>, parentTitle: Option<string>) {
    forall node <- nodes | LowerName(node) !in MEDIA && LowerName(node) != "textstream" ::
      Walk(ChildOf(node), NO_MEDIA, None, parentTitle) == []
  }

  lemma MediaEntry(node: Node, subtitle: Option<string>, parentTitle: Option<string>)
    requires LowerName(node) in MEDIA
    ensures AreEntriesOf(EntryFor(MediaOf(node), subtitle, parentTitle), if IsListed(node) then [node] else [],
              parentTitle)
  {
    hide Lower, HasProperty, Get;
    SmallNames();
    forall name | Lower(name) == name
      ensures HasProperty(node, name, Get(node, name))
    {
      GetHasProperty(node, name);
    }
    if HasProperty(node, "src", None) {
      PropertyIsUnique(node, "src", None);
    }
  }

  lemma EntriesOfConcat(es: seq<Entry>, ns: seq<Node>, fs: seq<Entry>, ms: seq<Node>, parentTitle: Option<string>)
    requires AreEntriesOf(es, ns, parentTitle) && AreEntriesOf(fs, ms, parentTitle)
    ensures AreEntriesOf(es + fs, ns + ms, parentTitle)
  {
    hide IsEntryOf;
  }

  lemma OthersAreNotListed(node: Node)
    requires LowerName(node) !in MEDIA
    ensures !IsListed(node)
  {
  }

  /** Behind what waits, or `source`, the siblings come one after the other. */
  lemma {:induction false} WalkIsListed(nodes: seq<Node>, media: Media, source: seq<Node>, subtitle: Option<string>,
                                        parentTitle: Option<string>)
    requires NothingNested(nodes, parentTitle)
    requires forall s :: AreEntriesOf(EntryFor(media, s, parentTitle), source, parentTitle)
    ensures AreEntriesOf(Walk(nodes, media, subtitle, parentTitle), source + Listed(nodes), parentTitle)
    decreases |nodes|
  {
    hide Walk, EntryFor, MediaOf, Get, IsMedia, IsTextStream, AreEntriesOf, IsListed, LowerName, ChildOf;
    if nodes == [] {
      WalkOfNone(media, subtitle, parentTitle);
      assert source + [] == source;
    } else {
      var node, rest := nodes[0], nodes[1..];
      WalkUnfolds(nodes, media, subtitle, parentTitle);
      KindsByName(node);
      if IsMedia(node) {
        var own := if IsListed(node) then [node] else [];
        forall s
          ensures AreEntriesOf(EntryFor(MediaOf(node), s, parentTitle), own, parentTitle)
        {
          MediaEntry(node, s, parentTitle);
        }
        WalkIsListed(rest, MediaOf(node), own, None, parentTitle);
        EntriesOfConcat(EntryFor(media, subtitle, parentTitle), source,
            Walk(rest, MediaOf(node), None, parentTitle), own + Listed(rest), parentTitle);
      } else {
        OthersAreNotListed(node);
        assert [] + Listed(rest) == Listed(rest);
        if IsTextStream(node) {
          WalkIsListed(rest, media, source, Get(node, "src"), parentTitle);
        } else {
          WalkIsListed(rest, media, source, subtitle, parentTitle);
          assert [] + Walk(rest, media, subtitle, parentTitle) == Walk(rest, media, subtitle, parentTitle);
        }
      }
    }
  }

  lemma NoEntries(parentTitle: Option<string>)
    ensures AreEntriesOf([], [], parentTitle)
  {
  }

  /**
   Siblings named `video`, `audio` or `media`, in whatever letters, that have a
   `src` give one entry each, in their order and with their own properties;
   siblings of other names give none of their own.
   */
  lemma SiblingsAreListed(nodes: seq<Node>, parentTitle: Option<string>)
    requires NothingNested(nodes, parentTitle)
    ensures AreEntriesOf(Walk(nodes, NO_MEDIA, None, parentTitle), Listed(nodes), parentTitle)
  {
    hide Walk, AreEntriesOf, Listed, EntryFor;
    NoMediaNoEntry(parentTitle);
    forall s
      ensures AreEntriesOf(EntryFor(NO_MEDIA, s, parentTitle), [], parentTitle)
    {
      NoEntries(parentTitle);
    }
    WalkIsListed(nodes, NO_MEDIA, [], None, parentTitle);
    assert [] + Listed(nodes) == Listed(nodes);
  }

  // ----- subtitles

  /** The last `textstream` sibling in front of the next media sibling gives the subtitle. */
  lemma {:induction false} SubtitleIsLast(nodes: seq<Node>, default: Option<string>)
    ensures (forall k :: 0 <= k < |nodes| ==> LowerName(nodes[k]) != "textstream") ==>
              Subtitle(nodes, default) == default
    ensures forall k ::
      0 <= k < |nodes| && LowerName(nodes[k]) == "textstream"
      && (forall j :: k < j < |nodes| ==> LowerName(nodes[j]) != "textstream") ==>
        HasProperty(nodes[k], "src", Subtitle(nodes, default))
    decreases |nodes|
  {
    hide HasProperty, Get, IsTextStream, LowerName, Lower;
    if nodes != [] {
      var n := |nodes| - 1;
      SmallNames();
      SubtitleIsLast(nodes[..n], default);
      KindsByName(nodes[n]);
      GetHasProperty(nodes[n], "src");
    }
  }

  // ----- titles and bodies

  /** A `meta` node that gives the title. */
  ghost predicate GivesTitle(node: Node, title: string) {
    && LowerName(node) == "meta" && HasProperty(node, "content", Some(title))
    && exists word :: Lower(word) == "title" && HasProperty(node, "name", Some(word))
  }

  lemma OwnTitle(node: Node)
    ensures HeadTitle([node]).Some? ==> GivesTitle(node, HeadTitle([node]).value)
    ensures forall t :: GivesTitle(node, t) ==> HeadTitle([node]) == Some(t)
  {
    hide HasProperty, Get, Lower;
    SmallNames();
    GetHasProperty(node, "name");
    GetHasProperty(node, "content");
    forall name, value | Lower(name) == name && HasProperty(node, name, value)
      ensures value == Get(node, name)
    {
      PropertyIsUnique(node, name, value);
    }
  }

  lemma HeadTitleOfMore(node: Node, rest: seq<Node>)
    ensures HeadTitle([node] + rest) == if HeadTitle([node]).Some? then HeadTitle([node]) else HeadTitle(rest)
  {
    hide Get, SameName, NameOf;
    assert ([node] + rest)[1..] == rest && [node][1..] == [];
  }

  lemma NoTitle()
    ensures HeadTitle([]) == None
  {
  }

  /** The title is that of the first node that gives one. */
  lemma {:induction false} HeadTitleIsFirst(nodes: seq<Node>)
    ensures HeadTitle(nodes) == None <==> forall k, t :: 0 <= k < |nodes| ==> !GivesTitle(nodes[k], t)
    ensures HeadTitle(nodes).Some? ==>
              exists k :: 0 <= k < |nodes| && GivesTitle(nodes[k], HeadTitle(nodes).value)
                          && forall j, t :: 0 <= j < k ==> !GivesTitle(nodes[j], t)
    decreases |nodes|
  {
    hide HeadTitle, GivesTitle;
    if nodes == [] {
      NoTitle();
    } else {
      var node, rest := nodes[0], nodes[1..];
      assert nodes == [node] + rest;
      HeadTitleIsFirst(rest);
      HeadTitleOfMore(node, rest);
      OwnTitle(node);
      assert forall k :: 0 <= k < |rest| ==> rest[k] == nodes[k + 1];
      if HeadTitle([node]).Some? {
        assert GivesTitle(nodes[0], HeadTitle(nodes).value);
      } else if HeadTitle(rest).Some? {
        var k :| 0 <= k < |rest| && GivesTitle(rest[k], HeadTitle(rest).value)
                 && forall j, t :: 0 <= j < k ==> !GivesTitle(rest[j], t);
        assert GivesTitle(nodes[k + 1], HeadTitle(nodes).value);
        forall j, t | 0 <= j < k + 1
          ensures !GivesTitle(nodes[j], t)
        {
          assert j > 0 ==> nodes[j] == rest[j - 1];
        }
      }
    }
  }

  /** The first title found in a `head`. */
  function TitleIn(nodes: seq<Node>): Option<string> {
    if nodes == [] then None
    else
      var n := |nodes| - 1;
      var before := TitleIn(nodes[..n]);
      if before.Some? then before
      else if LowerName(nodes[n]) == "head" then HeadTitle(ChildOf(nodes[n]))
      else None
  }

  /** The entries of the `body` nodes, each with the title found in front of it. */
  function BodyEntries(nodes: seq<Node>): seq<Entry> {
    if nodes == [] then []
    else
      var n := |nodes| - 1;
      BodyEntries(nodes[..n])
      + if LowerName(nodes[n]) == "body" then Walk(ChildOf(nodes[n]), NO_MEDIA, None, TitleIn(nodes[..n])) else []
  }

  lemma NoNodes()
    ensures TitleIn([]) == None && BodyEntries([]) == []
  {
  }

  lemma OneMore(front: seq<Node>, node: Node)
    ensures TitleIn(front + [node]) == if TitleIn(front).Some? then TitleIn(front)
                                       else if LowerName(node) == "head" then HeadTitle(ChildOf(node)) else None
    ensures BodyEntries(front + [node]) == BodyEntries(front) +
            if LowerName(node) == "body" then Walk(ChildOf(node), NO_MEDIA, None, TitleIn(front)) else []
  {
    hide Walk, HeadTitle, LowerName, ChildOf;
    assert (front + [node])[..|front|] == front;
  }

  lemma EntriesUnfold(node: Node, rest: seq<Node>, title: Option<string>)
    ensures Entries([node] + rest, title) ==
            if LowerName(node) == "body" then Walk(ChildOf(node), NO_MEDIA, None, title) + Entries(rest, title)
            else Entries(rest, if title.None? && LowerName(node) == "head" then HeadTitle(ChildOf(node)) else title)
  {
    hide Walk, HeadTitle, ChildOf, NameOf, Lower;
    SmallNames();
    assert ([node] + rest)[1..] == rest;
  }

  lemma NothingLeft(title: Option<string>)
    ensures Entries([], title) == []
  {
  }

  lemma BodyIsNoHead(node: Node)
    ensures !(LowerName(node) == "body" && LowerName(node) == "head")
  {
  }

  lemma {:induction false} EntriesGoOn(front: seq<Node>, nodes: seq<Node>)
    ensures BodyEntries(front) + Entries(nodes, TitleIn(front)) == BodyEntries(front + nodes)
    decreases |nodes|
  {
    hide Walk, HeadTitle, ChildOf, Entries, BodyEntries, TitleIn, LowerName;
    if nodes == [] {
      assert front + nodes == front;
      NothingLeft(TitleIn(front));
    } else {
      var node, rest := nodes[0], nodes[1..];
      assert nodes == [node] + rest && front + nodes == front + [node] + rest;
      EntriesUnfold(node, rest, TitleIn(front));
      OneMore(front, node);
      BodyIsNoHead(node);
      EntriesGoOn(front + [node], rest);
    }
  }

  /** A document gives the entries of all its bodies, each with the title found before it. */
  lemma EntriesAreThoseOfBodies(nodes: seq<Node>)
    ensures Entries(nodes, None) == BodyEntries(nodes)
  {
    hide Entries, BodyEntries, TitleIn;
    NoNodes();
    EntriesGoOn([], nodes);
    assert [] + nodes == nodes;
    assert [] + Entries(nodes, None) == Entries(nodes, None);
  }
}
