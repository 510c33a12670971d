/** The extension's local storage area as the popup and the all-bookmarks
    page use it: key "bookmarks" holds the collection and key "videoTitles"
    the cached title of each video. Reads name `[]` and `{}` as the defaults
    of absent keys, so a fresh storage area reads as empty. */
module ExtensionStorage {
  import opened BookmarkModel

  class LocalStorage {
    var bookmarks: seq<Bookmark>
    var videoTitles: map<string, string>

    constructor ()
      ensures bookmarks == [] && videoTitles == map[]
    {
      bookmarks := [];
      videoTitles := map[];
    }
  }
}
