/** The all-bookmarks page: every stored bookmark, grouped by video, each
    group sorted by timestamp under the video's title, with a link that
    opens the video at the bookmark and a delete button. */
module AllBookmarks {
  import opened BookmarkModel
  import opened TimestampOrder
  import opened TimeFormat
  import opened ExtensionStorage

  const WatchUrlPrefix := "https://www.youtube.com/watch?v="
  const TimeParameter := "&t="
  const PlaceholderPrefix := "Video: "

  /** The groups the page shows: one per video id, holding that video's
      bookmarks in stored order. */
  function Groups(bookmarks: seq<Bookmark>): (groups: map<string, seq<Bookmark>>)
    ensures groups.Keys == VideoIds(bookmarks)
  {
    map videoId | videoId in VideoIds(bookmarks) :: ByVideo(bookmarks, videoId)
  }

  lemma VideoIdsSnoc(prefix: seq<Bookmark>, b: Bookmark)
    ensures VideoIds(prefix + [b]) == VideoIds(prefix) + {b.videoId}
  {
    var s := prefix + [b];
    forall v | v in VideoIds(s) ensures v in VideoIds(prefix) + {b.videoId} {
      var e :| e in s && e.videoId == v;
      if e != b {
        assert e in prefix;
      }
    }
    forall v | v in VideoIds(prefix) ensures v in VideoIds(s) {
      var e :| e in prefix && e.videoId == v;
      assert e in s;
    }
    assert b in s;
  }

  lemma ByVideoSnoc(prefix: seq<Bookmark>, b: Bookmark, videoId: string)
    ensures ByVideo(prefix + [b], videoId) ==
      if videoId == b.videoId then ByVideo(prefix, videoId) + [b] else ByVideo(prefix, videoId)
  {
    FilterAppend(prefix, [b], OnVideo(videoId));
    FilterSingleton(b, OnVideo(videoId));
  }

  /** Appending one bookmark extends its own video's group, or opens it. */
  lemma GroupsSnoc(prefix: seq<Bookmark>, b: Bookmark)
    ensures Groups(prefix + [b]) == Groups(prefix)[b.videoId := ByVideo(prefix, b.videoId) + [b]]
  {
    var g, g' := Groups(prefix + [b]), Groups(prefix)[b.videoId := ByVideo(prefix, b.videoId) + [b]];
    assert g.Keys == g'.Keys by {
      VideoIdsSnoc(prefix, b);
    }
    forall v | v in g.Keys ensures g[v] == g'[v] {
      ByVideoSnoc(prefix, b, v);
    }
  }

  /** One step of the grouping pass: a bookmark whose video has no group yet
      opens one holding just itself, otherwise it joins the end of its group. */
  lemma GroupsStep(prefix: seq<Bookmark>, b: Bookmark)
    ensures b.videoId !in Groups(prefix) ==> Groups(prefix + [b]) == Groups(prefix)[b.videoId := [b]]
    ensures b.videoId in Groups(prefix) ==>
      Groups(prefix + [b]) == Groups(prefix)[b.videoId := Groups(prefix)[b.videoId] + [b]]
  {
    GroupsSnoc(prefix, b);
    if b.videoId !in Groups(prefix) {
      assert b.videoId !in VideoIds(prefix);
      ByVideoOfAbsent(prefix, b.videoId);
      assert ByVideo(prefix, b.videoId) + [b] == [b];
    }
  }

  /** `groupBookmarksByVideo`: one pass that opens a group for a video the
      first time it is seen and appends each bookmark to its video's group. */
  method GroupBookmarksByVideo(bookmarks: seq<Bookmark>) returns (groups: map<string, seq<Bookmark>>)
    ensures groups == Groups(bookmarks)
  {
    groups := map[];
    assert Groups(bookmarks[..0]) == map[] by {
      assert VideoIds(bookmarks[..0]) == {};
    }
    for i := 0 to |bookmarks|
      invariant groups == Groups(bookmarks[..i])
    {
      var b := bookmarks[i];
      assert bookmarks[..i + 1] == bookmarks[..i] + [b];
      GroupsStep(bookmarks[..i], b);
      var group := if b.videoId in groups then groups[b.videoId] else [];
      assert group + [b] == if b.videoId in groups then groups[b.videoId] + [b] else [b];
      groups := groups[b.videoId := group + [b]];
    }
    assert bookmarks[..|bookmarks|] == bookmarks;
  }

  /** The group keys are exactly the video ids present, and no group is empty. */
  lemma GroupsNonEmpty(bookmarks: seq<Bookmark>)
    ensures Groups(bookmarks).Keys == VideoIds(bookmarks)
    ensures forall v :: v in Groups(bookmarks) ==> Groups(bookmarks)[v] != []
  {
    forall v | v in Groups(bookmarks) ensures Groups(bookmarks)[v] != [] {
      var b :| b in bookmarks && b.videoId == v;
      assert b in ByVideo(bookmarks, v);
    }
  }

  /** Every bookmark sits in the group of its own video and in no other. */
  lemma GroupOfEachBookmark(bookmarks: seq<Bookmark>, b: Bookmark, videoId: string)
    requires b in bookmarks
    ensures b.videoId in Groups(bookmarks) && b in Groups(bookmarks)[b.videoId]
    ensures videoId != b.videoId && videoId in Groups(bookmarks) ==> b !in Groups(bookmarks)[videoId]
  {
    assert b.videoId in VideoIds(bookmarks);
  }

  /** The number of bookmarks over all groups. */
  ghost function TotalSize(groups: map<string, seq<Bookmark>>): nat
    decreases groups.Keys
  {
    if groups.Keys == {} then 0
    else
      var v :| v in groups.Keys;
      |groups[v]| + TotalSize(groups - {v})
  }

  lemma {:induction false} TotalSizeRemove(groups: map<string, seq<Bookmark>>, v: string)
    requires v in groups
    ensures TotalSize(groups) == |groups[v]| + TotalSize(groups - {v})
    decreases groups.Keys
  {
    var w :| w in groups.Keys && TotalSize(groups) == |groups[w]| + TotalSize(groups - {w});
    if w != v {
      TotalSizeRemove(groups - {w}, v);
      TotalSizeRemove(groups - {v}, w);
      assert groups - {w} - {v} == groups - {v} - {w};
    }
  }

  /** Replacing one group changes the total by the difference in its size. */
  lemma TotalSizeUpdate(groups: map<string, seq<Bookmark>>, v: string, group: seq<Bookmark>)
    ensures TotalSize(groups[v := group]) == TotalSize(groups - {v}) + |group|
  {
    TotalSizeRemove(groups[v := group], v);
    assert groups[v := group] - {v} == groups - {v};
  }

  /** The groups hold as many bookmarks as the input: nothing is lost or
      counted twice. */
  lemma {:induction false} GroupSizesSum(bookmarks: seq<Bookmark>)
    ensures TotalSize(Groups(bookmarks)) == |bookmarks|
    decreases |bookmarks|
  {
    if bookmarks == [] {
      assert Groups(bookmarks) == map[];
    } else {
      var prefix, b := bookmarks[..|bookmarks| - 1], bookmarks[|bookmarks| - 1];
      var g := Groups(prefix);
      assert bookmarks == prefix + [b];
      GroupSizesSum(prefix);
      GroupsStep(prefix, b);
      if b.videoId in g {
        TotalSizeUpdate(g, b.videoId, g[b.videoId] + [b]);
        TotalSizeRemove(g, b.videoId);
      } else {
        TotalSizeUpdate(g, b.videoId, [b]);
        assert g - {b.videoId} == g;
      }
    }
  }

  /** `fetchVideoTitle`: the cached title when it is non-empty, else the
      placeholder. */
  function FetchVideoTitle(videoId: string, videoTitles: map<string, string>): (title: string)
    ensures title != ""
    ensures videoId in videoTitles && videoTitles[videoId] != "" ==> title == videoTitles[videoId]
    ensures !(videoId in videoTitles && videoTitles[videoId] != "") ==> title == PlaceholderPrefix + videoId
  {
    if videoId in videoTitles && videoTitles[videoId] != "" then videoTitles[videoId]
    else PlaceholderPrefix + videoId
  }

  /** The heading of a video's section: the first bookmark's saved title if
      it is non-empty, else the fetched title. */
  function GroupTitle(videoId: string, group: seq<Bookmark>, videoTitles: map<string, string>): (title: string)
    ensures title != ""
    ensures group != [] && group[0].videoTitle.Some? && group[0].videoTitle.value != "" ==>
      title == group[0].videoTitle.value
    ensures !(group != [] && group[0].videoTitle.Some? && group[0].videoTitle.value != "") ==>
      title == FetchVideoTitle(videoId, videoTitles)
  {
    if group != [] && group[0].videoTitle.Some? && group[0].videoTitle.value != "" then group[0].videoTitle.value
    else FetchVideoTitle(videoId, videoTitles)
  }

  /** One bookmark card: its `MM:SS` clock, the description shown, the id
      its delete button carries and the second its jump button opens. */
  datatype Card = Card(clock: string, description: string, deleteId: nat, jumpTo: nat)

  function CardOf(b: Bookmark): (card: Card)
    ensures card.deleteId == b.id && card.jumpTo == b.timestamp && card.description != ""
  {
    Card(FormatTimestamp(b.timestamp), ShownDescription(b), b.id, b.timestamp)
  }

  /** A card's clock reads back as the bookmark's second; its buttons carry
      the bookmark's id and second; it never shows an empty description. */
  lemma CardShowsBookmark(b: Bookmark)
    ensures ParseClock(CardOf(b).clock) == Some(b.timestamp)
    ensures CardOf(b).description == ShownDescription(b) && CardOf(b).description != ""
    ensures HasId(b, Some(CardOf(b).deleteId)) && CardOf(b).jumpTo == b.timestamp
  {
    FormatTimestampRoundTrip(b.timestamp);
  }

  /** One section of `displayBookmarks`: sorts the group in place, takes the
      heading from its first, hence earliest, bookmark and renders one card
      per bookmark in sorted order. */
  method DisplayGroup(videoId: string, group: array<Bookmark>, videoTitles: map<string, string>)
    returns (title: string, cards: seq<Card>)
    modifies group
    ensures group[..] == SortByTime(old(group[..]))
    ensures SortedByTime(group[..]) && multiset(group[..]) == multiset(old(group[..]))
    ensures title == GroupTitle(videoId, group[..], videoTitles)
    ensures |cards| == group.Length && forall k :: 0 <= k < |cards| ==> cards[k] == CardOf(group[k])
  {
    SortByTimestamp(group);
    SortSorted(old(group[..]));
    SortPermutes(old(group[..]));
    title := GroupTitle(videoId, group[..], videoTitles);
    cards := seq(group.Length, k requires 0 <= k < group.Length reads group => CardOf(group[k]));
  }

  /** `jumpToVideo`: the watch URL with the video id and the whole second to
      start at. */
  function JumpUrl(videoId: string, timestamp: nat): (url: string)
    ensures |url| > |WatchUrlPrefix| + |videoId| + |TimeParameter|
    ensures url[..|WatchUrlPrefix|] == WatchUrlPrefix
    ensures url[|WatchUrlPrefix|..|WatchUrlPrefix| + |videoId|] == videoId
    ensures url[|WatchUrlPrefix| + |videoId|..|WatchUrlPrefix| + |videoId| + |TimeParameter|] == TimeParameter
    ensures var t := url[|WatchUrlPrefix| + |videoId| + |TimeParameter|..]; AllDigits(t) && DigitsValue(t) == timestamp && (t[0] != '0' || t == "0")
  {
    DecimalSpec(timestamp);
    var url := WatchUrlPrefix + videoId + TimeParameter + Decimal(timestamp);
    assert url[|WatchUrlPrefix| + |videoId| + |TimeParameter|..] == Decimal(timestamp);
    url
  }

  /** `deleteBookmark` of this page: keeps every record with another id. */
  method DeleteBookmark(storage: LocalStorage, id: Option<int>)
    modifies storage
    ensures storage.bookmarks == WithoutId(old(storage.bookmarks), id)
    ensures storage.videoTitles == old(storage.videoTitles)
  {
    var bookmarks := storage.bookmarks;
    bookmarks := WithoutId(bookmarks, id);
    storage.bookmarks := bookmarks;
  }
}
