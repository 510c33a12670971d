/** The extension popup: the bookmarks of the video in the current tab,
    saving a bookmark at the player's position, deleting one. */
module Popup {
  import opened BookmarkModel
  import opened TimestampOrder
  import opened ExtensionStorage
  import opened TimeFormat

  const WatchPath := "youtube.com/watch"
  const NotOnVideoMessage := "Please navigate to a YouTube video first!"
  const NoVideoIdMessage := "Could not find a valid YouTube video ID"
  const NoTimestampMessage := "Could not get current video timestamp"

  /** `sub` occurs in `s` starting at position `i`. */
  predicate OccursAt(s: string, sub: string, i: int) {
    0 <= i <= |s| - |sub| && s[i..i + |sub|] == sub
  }

  /** `s.includes(sub)`, scanning start positions from the left. */
  function Contains(s: string, sub: string): (found: bool)
    ensures found ==> |sub| <= |s|
    decreases |s|
  {
    if |s| < |sub| then false
    else if s[..|sub|] == sub then true
    else Contains(s[1..], sub)
  }

  lemma {:induction false} ContainsIff(s: string, sub: string)
    ensures Contains(s, sub) <==> exists i :: OccursAt(s, sub, i)
    decreases |s|
  {
    if |s| < |sub| {
    } else if s[..|sub|] == sub {
      assert OccursAt(s, sub, 0);
    } else {
      ContainsIff(s[1..], sub);
      if Contains(s[1..], sub) {
        var i :| OccursAt(s[1..], sub, i);
        assert s[i + 1..i + 1 + |sub|] == s[1..][i..i + |sub|];
        assert OccursAt(s, sub, i + 1);
      }
      if exists i :: OccursAt(s, sub, i) {
        var i :| OccursAt(s, sub, i);
        assert i != 0;
        assert s[1..][i - 1..i - 1 + |sub|] == s[i..i + |sub|];
        assert OccursAt(s[1..], sub, i - 1);
      }
    }
  }

  /** The video the popup works on: the tab must show a watch page and
      `extractVideoId` must have found a non-empty id. */
  function CurrentVideo(url: string, extractedId: Option<string>): (v: Option<string>)
    ensures v.Some? <==> Contains(url, WatchPath) && extractedId.Some? && extractedId.value != ""
    ensures v.Some? ==> v == extractedId
  {
    if Contains(url, WatchPath) && extractedId.Some? && extractedId.value != "" then extractedId else None
  }

  /** `videoTitles[videoId] || null`: the cached title, unless it is missing
      or empty. */
  function CachedTitle(videoTitles: map<string, string>, videoId: string): (title: Option<string>)
    ensures title.Some? <==> videoId in videoTitles && videoTitles[videoId] != ""
    ensures title.Some? ==> title.value == videoTitles[videoId]
  {
    if videoId in videoTitles && videoTitles[videoId] != "" then Some(videoTitles[videoId]) else None
  }

  /** The text of one popup entry: the `MM:SS` clock, a dash and the
      description shown. */
  function EntryText(b: Bookmark): (text: string)
    ensures var k := |FormatTimestamp(b.timestamp)|;
      && k + 3 < |text|
      && ParseClock(text[..k]) == Some(b.timestamp)
      && text[k..k + 3] == " - "
      && text[k + 3..] == ShownDescription(b)
  {
    var clock := FormatTimestamp(b.timestamp);
    FormatTimestampRoundTrip(b.timestamp);
    var text := clock + " - " + ShownDescription(b);
    assert text[..|clock|] == clock && text[|clock|..|clock| + 3] == " - ";
    assert text[|clock| + 3..] == ShownDescription(b);
    text
  }

  /** What the add button hands to `saveBookmark`. */
  datatype BookmarkInput = BookmarkInput(videoId: string, timestamp: nat, description: string)

  /** `loadBookmarks`: None where it returns without listing (not a watch
      page, or no video id); otherwise the current video's bookmarks sorted
      by timestamp, equal timestamps in stored order. */
  function LoadBookmarks(url: string, extractedId: Option<string>, stored: seq<Bookmark>): (shown: Option<seq<Bookmark>>)
    ensures shown.Some? <==> CurrentVideo(url, extractedId).Some?
    ensures shown.Some? ==>
      var videoId := CurrentVideo(url, extractedId).value;
      && SortedByTime(shown.value)
      && multiset(shown.value) == multiset(ByVideo(stored, videoId))
      && forall t :: Filter(shown.value, AtTime(t)) == Filter(ByVideo(stored, videoId), AtTime(t))
  {
    match CurrentVideo(url, extractedId)
    case None => None
    case Some(videoId) =>
      SortByTimeSpec(ByVideo(stored, videoId));
      Some(SortByTime(ByVideo(stored, videoId)))
  }

  /** `saveBookmark`: appends the input with a fresh id, the creation time
      and the cached title of its video. */
  method SaveBookmark(storage: LocalStorage, input: BookmarkInput, id: nat, createdAt: string)
    modifies storage
    ensures storage.bookmarks == old(storage.bookmarks) + [Bookmark(
      id, input.videoId, input.timestamp, input.description, createdAt,
      CachedTitle(old(storage.videoTitles), input.videoId))]
    ensures storage.videoTitles == old(storage.videoTitles)
  {
    var bookmarks := storage.bookmarks;
    var videoTitles := storage.videoTitles;
    var record := Bookmark(id, input.videoId, input.timestamp, input.description, createdAt,
                           CachedTitle(videoTitles, input.videoId));
    bookmarks := bookmarks + [record];
    storage.bookmarks := bookmarks;
  }

  /** `deleteBookmark`: keeps every record whose id differs from the parsed
      id; an id that matches nothing is no error. */
  method DeleteBookmark(storage: LocalStorage, id: Option<int>)
    modifies storage
    ensures storage.bookmarks == WithoutId(old(storage.bookmarks), id)
    ensures storage.videoTitles == old(storage.videoTitles)
  {
    storage.bookmarks := WithoutId(storage.bookmarks, id);
  }

  /** The add button: checks the tab, the video id and the player's answer
      in turn and saves only when all three are there. `timestampReply` is
      the content script's answer, None when it had no timestamp. */
  method AddBookmarkClick(storage: LocalStorage, url: string, extractedId: Option<string>,
                          timestampReply: Option<nat>, description: string, id: nat, createdAt: string)
    returns (error: Option<string>)
    modifies storage
    ensures !Contains(url, WatchPath) ==> error == Some(NotOnVideoMessage)
    ensures Contains(url, WatchPath) && (extractedId.None? || extractedId.value == "") ==>
      error == Some(NoVideoIdMessage)
    ensures CurrentVideo(url, extractedId).Some? && timestampReply.None? ==> error == Some(NoTimestampMessage)
    ensures error.None? <==> CurrentVideo(url, extractedId).Some? && timestampReply.Some?
    ensures error.Some? ==> storage.bookmarks == old(storage.bookmarks)
    ensures error.None? ==> storage.bookmarks == old(storage.bookmarks) + [Bookmark(
      id, extractedId.value, timestampReply.value, description, createdAt,
      CachedTitle(old(storage.videoTitles), extractedId.value))]
    ensures storage.videoTitles == old(storage.videoTitles)
  {
    if !Contains(url, WatchPath) {
      return Some(NotOnVideoMessage);
    }
    if extractedId.None? || extractedId.value == "" {
      return Some(NoVideoIdMessage);
    }
    if timestampReply.None? {
      return Some(NoTimestampMessage);
    }
    SaveBookmark(storage, BookmarkInput(extractedId.value, timestampReply.value, description), id, createdAt);
    error := None;
  }
}
