/** The video page served beside the REST store: it lists the bookmarks of
    the video named in its `v` query parameter, sorted by timestamp, and is
    meant to post a new bookmark at the player's current second. As written
    the page's `player` binding never becomes the YouTube player, so adding
    a bookmark throws before anything is posted (`AddBookmarkAsWritten`);
    `AddBookmark` is the intended behaviour. */
module VideoPage {
  import opened BookmarkModel
  import opened TimestampOrder
  import opened TimeFormat
  import opened RestServer

  /** One list item: the clock label, the description shown and the second
      its "Jump to" button seeks to. */
  datatype ListItem = ListItem(clock: string, description: string, seekTo: nat)

  /** The item `displayBookmarks` renders for one bookmark. */
  function ItemOf(b: Bookmark): (item: ListItem)
    ensures item.seekTo == b.timestamp && item.description != ""
  {
    ListItem(FormatTime(b.timestamp), ShownDescription(b), b.timestamp)
  }

  /** An item's clock reads back as the bookmark's second, its button seeks
      to that second, and it never shows an empty description. */
  lemma ItemShowsBookmark(b: Bookmark)
    ensures ParseClock(ItemOf(b).clock) == Some(b.timestamp)
    ensures ItemOf(b).seekTo == b.timestamp
    ensures ItemOf(b).description == ShownDescription(b) && ItemOf(b).description != ""
  {
    FormatTimeRoundTrip(b.timestamp);
  }

  /** The `forEach` of `displayBookmarks`: one item per bookmark, in order. */
  method RenderItems(bookmarks: seq<Bookmark>) returns (items: seq<ListItem>)
    ensures |items| == |bookmarks|
    ensures forall k :: 0 <= k < |items| ==> items[k] == ItemOf(bookmarks[k])
  {
    items := [];
    for i := 0 to |bookmarks|
      invariant |items| == i
      invariant forall k :: 0 <= k < i ==> items[k] == ItemOf(bookmarks[k])
    {
      items := items + [ItemOf(bookmarks[i])];
    }
  }

  /** `displayBookmarks`: sorts the fetched array in place by timestamp (a
      stable sort) and renders one item per bookmark in that order. */
  method DisplayBookmarks(bookmarks: array<Bookmark>) returns (items: seq<ListItem>)
    modifies bookmarks
    ensures bookmarks[..] == SortByTime(old(bookmarks[..]))
    ensures SortedByTime(bookmarks[..]) && multiset(bookmarks[..]) == multiset(old(bookmarks[..]))
    ensures |items| == bookmarks.Length
    ensures forall k :: 0 <= k < |items| ==> items[k] == ItemOf(bookmarks[k])
  {
    SortByTimestamp(bookmarks);
    SortSorted(old(bookmarks[..]));
    SortPermutes(old(bookmarks[..]));
    items := RenderItems(bookmarks[..]);
  }

  /** `fetchBookmarks`: GET the page video's bookmarks and display them. */
  method FetchBookmarks(server: RestStore, pageVideoId: string) returns (items: seq<ListItem>)
    ensures var sorted := SortByTime(ByVideo(server.Contents(), pageVideoId));
      |items| == |sorted| && forall k :: 0 <= k < |items| ==> items[k] == ItemOf(sorted[k])
  {
    var list := server.List(pageVideoId);
    var fetched := new Bookmark[|list|](k requires 0 <= k < |list| => list[k]);
    assert fetched[..] == list;
    items := DisplayBookmarks(fetched);
  }

  /** `Math.floor(player.getCurrentTime())`: the whole second the player is in. */
  function PostedTimestamp(currentTime: real): (t: nat)
    requires currentTime >= 0.0
    ensures t as real <= currentTime < t as real + 1.0
  {
    currentTime.Floor
  }

  /** `addBookmark` as intended, with `player` bound to the YouTube player:
      POSTs the page's video id, the player's whole second and the prompted
      description (None when the prompt is cancelled); only a 2xx answer
      refreshes the list, which is returned. */
  method AddBookmark(server: RestStore, pageVideoId: string, currentTime: real,
                     description: Option<string>, id: nat, createdAt: string)
    returns (shown: Option<seq<ListItem>>)
    requires currentTime >= 0.0
    modifies server
    ensures shown.Some? <==> pageVideoId != ""
    ensures shown.None? ==> server.file == old(server.file)
    ensures shown.Some? ==>
      server.Contents() == old(server.Contents()) +
        [NewRecord(pageVideoId, PostedTimestamp(currentTime), description, id, createdAt)]
    ensures shown.Some? ==> var sorted := SortByTime(ByVideo(server.Contents(), pageVideoId));
      |shown.value| == |sorted| && forall k :: 0 <= k < |sorted| ==> shown.value[k] == ItemOf(sorted[k])
    ensures shown.Some? ==>
      ItemOf(NewRecord(pageVideoId, PostedTimestamp(currentTime), description, id, createdAt)) in shown.value
  {
    var timestamp := PostedTimestamp(currentTime);
    var response := server.Create(Some(pageVideoId), Some(timestamp), description, id, createdAt);
    if 200 <= response.Status() < 300 {
      var record := NewRecord(pageVideoId, timestamp, description, id, createdAt);
      assert server.Contents() == old(server.Contents()) + [record];
      var items := FetchBookmarks(server, pageVideoId);
      assert record in SortByTime(ByVideo(server.Contents(), pageVideoId)) by {
        AddedBookmarkListed(old(server.Contents()), record);
      }
      ItemsShowRecord(SortByTime(ByVideo(server.Contents(), pageVideoId)), items, record);
      shown := Some(items);
    } else {
      shown := None;
    }
  }

  /** What the page's global `player` name is bound to: the placeholder
      element it is declared with, or a YouTube player at some time. */
  datatype PlayerBinding = PlaceholderElement | YouTubePlayer(currentTime: real)

  /** `onYouTubeIframeAPIReady` assigning the new YouTube player to `player`.
      A `const` binding refuses the assignment with a TypeError and keeps
      what it held; a mutable binding takes the new player. */
  function BindingAfterApiReady(declaredConst: bool, before: PlayerBinding, created: real): (after: PlayerBinding)
    ensures declaredConst ==> after == before
    ensures !declaredConst ==> after.YouTubePlayer? && after.currentTime == created
  {
    if declaredConst then before else YouTubePlayer(created)
  }

  /** `player.getCurrentTime()`: None when the binding has no such method,
      which makes the call throw. */
  function CurrentTime(player: PlayerBinding): (t: Option<real>)
    ensures t.Some? <==> player.YouTubePlayer?
  {
    match player
    case PlaceholderElement => None
    case YouTubePlayer(time) => Some(time)
  }

  /** What a click on "add" ends in: an exception before the prompt, or the
      refreshed list (None when the POST is refused). */
  datatype AddOutcome = Threw | Finished(shown: Option<seq<ListItem>>)

  /** `addBookmark` on whatever `player` holds: reading the current time is
      the first statement and lies outside the `try`, so a binding without
      `getCurrentTime` throws before the prompt and the POST. */
  method AddBookmarkAsWritten(server: RestStore, player: PlayerBinding, pageVideoId: string,
                              description: Option<string>, id: nat, createdAt: string)
    returns (outcome: AddOutcome)
    requires player.YouTubePlayer? ==> player.currentTime >= 0.0
    modifies server
    ensures CurrentTime(player).None? <==> outcome == Threw
    ensures outcome == Threw ==> server.file == old(server.file)
    ensures outcome.Finished? ==> (outcome.shown.Some? <==> pageVideoId != "")
    ensures outcome.Finished? && outcome.shown.None? ==> server.file == old(server.file)
    ensures outcome.Finished? && outcome.shown.Some? ==>
      server.Contents() == old(server.Contents()) +
        [NewRecord(pageVideoId, PostedTimestamp(player.currentTime), description, id, createdAt)]
    ensures outcome.Finished? && outcome.shown.Some? ==>
      var sorted := SortByTime(ByVideo(server.Contents(), pageVideoId));
      |outcome.shown.value| == |sorted| &&
      forall k :: 0 <= k < |sorted| ==> outcome.shown.value[k] == ItemOf(sorted[k])
  {
    var time := CurrentTime(player);
    if time.None? {
      return Threw;
    }
    var shown := AddBookmark(server, pageVideoId, time.value, description, id, createdAt);
    outcome := Finished(shown);
  }

  /** As written `player` is declared `const` with the placeholder element,
      so whatever time the YouTube player is created at, the binding stays
      the element and reading its current time throws: an add never posts.
      With a mutable binding the time is the new player's. */
  lemma ConstPlayerNeverPosts(created: real)
    ensures BindingAfterApiReady(true, PlaceholderElement, created) == PlaceholderElement
    ensures CurrentTime(BindingAfterApiReady(true, PlaceholderElement, created)).None?
    ensures CurrentTime(BindingAfterApiReady(false, PlaceholderElement, created)) == Some(created)
  {
  }

  /** A rendered list shows the item of every record it was rendered from. */
  lemma ItemsShowRecord(sorted: seq<Bookmark>, items: seq<ListItem>, record: Bookmark)
    requires record in sorted
    requires |items| == |sorted| && forall k :: 0 <= k < |items| ==> items[k] == ItemOf(sorted[k])
    ensures ItemOf(record) in items
  {
    var k :| 0 <= k < |sorted| && sorted[k] == record;
    assert items[k] == ItemOf(record);
  }

  /** A bookmark just appended is among its video's bookmarks once sorted. */
  lemma AddedBookmarkListed(stored: seq<Bookmark>, record: Bookmark)
    ensures record in SortByTime(ByVideo(stored + [record], record.videoId))
    ensures |SortByTime(ByVideo(stored + [record], record.videoId))| == |ByVideo(stored + [record], record.videoId)|
  {
    var group := ByVideo(stored + [record], record.videoId);
    assert record in group;
    SortPermutes(group);
    assert record in multiset(SortByTime(group));
  }
}
