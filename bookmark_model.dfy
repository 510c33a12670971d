/** The bookmark record shared by the REST store and the extension's storage,
    and the order-preserving selections that both stores are built from. */
module BookmarkModel {

  datatype Option<+T> = None | Some(value: T)

  /** One saved moment of a video. The id is the creation clock in
      milliseconds, the timestamp whole seconds into the video; only the
      extension fills in `videoTitle`, from its per-video title cache. */
  datatype Bookmark = Bookmark(
    id: nat,
    videoId: string,
    timestamp: nat,
    description: string,
    createdAt: string,
    videoTitle: Option<string>)

  const NoDescription := "No description"

  /** `description || 'No description'`: what every list shows for a
      bookmark's description. */
  function ShownDescription(b: Bookmark): (text: string)
    ensures text != ""
    ensures b.description != "" ==> text == b.description
    ensures b.description == "" ==> text == NoDescription
  {
    if b.description != "" then b.description else NoDescription
  }

  /** `b.id === id`, where `id` is the result of `parseInt` and None stands
      for NaN, which equals no number. */
  predicate HasId(b: Bookmark, id: Option<int>) {
    id == Some(b.id)
  }

  /** No two records of the collection share an id. */
  predicate UniqueIds(bookmarks: seq<Bookmark>) {
    forall i, j :: 0 <= i < j < |bookmarks| ==> bookmarks[i].id != bookmarks[j].id
  }

  /** The video ids that occur in a collection. */
  function VideoIds(bookmarks: seq<Bookmark>): set<string> {
    set b | b in bookmarks :: b.videoId
  }

  /** `Array.prototype.filter`: the elements `keep` accepts, in their original order. */
  function Filter<T(!new)>(s: seq<T>, keep: T -> bool): (r: seq<T>)
    ensures |r| <= |s|
    ensures forall x :: x in r <==> x in s && keep(x)
  {
    if s == [] then []
    else
      assert s == [s[0]] + s[1..];
      (if keep(s[0]) then [s[0]] else []) + Filter(s[1..], keep)
  }

  /** Filtering distributes over concatenation, which is what "keeps the
      relative order of what it keeps" means. */
  lemma {:induction false} FilterAppend<T(!new)>(a: seq<T>, b: seq<T>, keep: T -> bool)
    ensures Filter(a + b, keep) == Filter(a, keep) + Filter(b, keep)
  {
    if a == [] {
      assert a + b == b;
    } else {
      assert (a + b)[0] == a[0];
      assert (a + b)[1..] == a[1..] + b;
      FilterAppend(a[1..], b, keep);
    }
  }

  lemma FilterSingleton<T(!new)>(x: T, keep: T -> bool)
    ensures Filter([x], keep) == if keep(x) then [x] else []
  {
    assert [x][1..] == [];
  }

  /** A filter that rejects nothing returns its input unchanged. */
  lemma {:induction false} FilterKeepsAll<T(!new)>(s: seq<T>, keep: T -> bool)
    requires forall x :: x in s ==> keep(x)
    ensures Filter(s, keep) == s
  {
    if s != [] {
      assert s == [s[0]] + s[1..];
      FilterKeepsAll(s[1..], keep);
    }
  }

  /** A filter that accepts nothing returns the empty sequence. */
  lemma FilterKeepsNone<T(!new)>(s: seq<T>, keep: T -> bool)
    requires forall x :: x in s ==> !keep(x)
    ensures Filter(s, keep) == []
  {
  }

  function OnVideo(videoId: string): Bookmark -> bool {
    (b: Bookmark) => b.videoId == videoId
  }

  function OtherThanId(id: Option<int>): Bookmark -> bool {
    (b: Bookmark) => !HasId(b, id)
  }

  /** `bookmarks.filter(b => b.videoId === videoId)`. */
  function ByVideo(bookmarks: seq<Bookmark>, videoId: string): (r: seq<Bookmark>)
    ensures forall b :: b in r <==> b in bookmarks && b.videoId == videoId
  {
    Filter(bookmarks, OnVideo(videoId))
  }

  /** A video that occurs in no record selects nothing. */
  lemma ByVideoOfAbsent(bookmarks: seq<Bookmark>, videoId: string)
    requires videoId !in VideoIds(bookmarks)
    ensures ByVideo(bookmarks, videoId) == []
  {
    forall b | b in bookmarks ensures !OnVideo(videoId)(b) {
      assert b.videoId in VideoIds(bookmarks);
    }
    FilterKeepsNone(bookmarks, OnVideo(videoId));
  }

  /** `bookmarks.filter(b => b.id !== id)`. */
  function WithoutId(bookmarks: seq<Bookmark>, id: Option<int>): (r: seq<Bookmark>)
    ensures forall b :: b in r <==> b in bookmarks && !HasId(b, id)
  {
    Filter(bookmarks, OtherThanId(id))
  }

  /** Removing an id that no record carries changes nothing. */
  lemma WithoutAbsentId(bookmarks: seq<Bookmark>, id: Option<int>)
    requires forall b :: b in bookmarks ==> !HasId(b, id)
    ensures WithoutId(bookmarks, id) == bookmarks
  {
    FilterKeepsAll(bookmarks, OtherThanId(id));
  }

  /** Removing by id keeps every other record in its relative order. */
  lemma WithoutIdAppend(a: seq<Bookmark>, b: seq<Bookmark>, id: Option<int>)
    ensures WithoutId(a + b, id) == WithoutId(a, id) + WithoutId(b, id)
  {
    FilterAppend(a, b, OtherThanId(id));
  }
}
