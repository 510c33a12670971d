/** The REST bookmark store: the four route handlers of the Express server,
    each a read-modify-write of the whole collection kept in one JSON file. */
module RestServer {
  import opened BookmarkModel

  const RequiredFieldsMessage := "videoId and timestamp are required."
  const NotFoundMessage := "Bookmark not found."

  /** What a handler answers: the HTTP status and its JSON body. */
  datatype Response =
    | Created(record: Bookmark)
    | Ok(record: Bookmark)
    | BadRequest(error: string)
    | NotFound(error: string)
  {
    function Status(): nat {
      match this
      case Created(_) => 201
      case Ok(_) => 200
      case BadRequest(_) => 400
      case NotFound(_) => 404
    }
  }

  /** `loadBookmarks`: the file's array, or an empty collection while the
      file does not exist yet. */
  function Load(file: Option<seq<Bookmark>>): (bookmarks: seq<Bookmark>)
    ensures file.None? ==> bookmarks == []
    ensures file.Some? ==> bookmarks == file.value
  {
    match file
    case None => []
    case Some(saved) => saved
  }

  /** The POST guard `!videoId || timestamp == null`, negated: an absent or
      empty video id, or an absent timestamp, is a bad request. */
  predicate CreateRequestValid(videoId: Option<string>, timestamp: Option<nat>) {
    videoId.Some? && videoId.value != "" && timestamp.Some?
  }

  /** The record the POST handler builds; `description || ""` turns an absent
      description into the empty string. */
  function NewRecord(videoId: string, timestamp: nat, description: Option<string>, id: nat, createdAt: string): (b: Bookmark)
    ensures b.id == id && b.videoId == videoId && b.timestamp == timestamp && b.createdAt == createdAt
    ensures b.description == if description.Some? then description.value else ""
    ensures b.videoTitle == None
  {
    Bookmark(id, videoId, timestamp, if description.Some? then description.value else "", createdAt, None)
  }

  /** `findIndex(b => b.id === id)`: the position of the first record with
      the id, None where `findIndex` answers -1. */
  function FindIndex(bookmarks: seq<Bookmark>, id: Option<int>): (r: Option<nat>)
    ensures r.None? <==> forall k :: 0 <= k < |bookmarks| ==> !HasId(bookmarks[k], id)
    ensures r.Some? ==> r.value < |bookmarks| && HasId(bookmarks[r.value], id)
    ensures r.Some? ==> forall k :: 0 <= k < r.value ==> !HasId(bookmarks[k], id)
  {
    if bookmarks == [] then None
    else if HasId(bookmarks[0], id) then Some(0)
    else
      match FindIndex(bookmarks[1..], id)
      case None => None
      case Some(i) => Some(i + 1)
  }

  /** `splice(index, 1)`: the collection without the record at `index`, the
      others in their order. */
  function RemoveAt(bookmarks: seq<Bookmark>, index: nat): (r: seq<Bookmark>)
    requires index < |bookmarks|
    ensures |r| == |bookmarks| - 1
    ensures forall k :: 0 <= k < |r| ==> r[k] == if k < index then bookmarks[k] else bookmarks[k + 1]
    ensures multiset(r) + multiset{bookmarks[index]} == multiset(bookmarks)
  {
    assert bookmarks == bookmarks[..index] + [bookmarks[index]] + bookmarks[index + 1..];
    bookmarks[..index] + bookmarks[index + 1..]
  }

  /** `bookmark.description = description` on the record at `index`. */
  function WithDescription(bookmarks: seq<Bookmark>, index: nat, description: string): (r: seq<Bookmark>)
    requires index < |bookmarks|
    ensures |r| == |bookmarks|
    ensures forall k :: 0 <= k < |r| && k != index ==> r[k] == bookmarks[k]
    ensures r[index].description == description
    ensures r[index].id == bookmarks[index].id && r[index].videoId == bookmarks[index].videoId
    ensures r[index].timestamp == bookmarks[index].timestamp && r[index].createdAt == bookmarks[index].createdAt
    ensures r[index].videoTitle == bookmarks[index].videoTitle
  {
    bookmarks[index := bookmarks[index].(description := description)]
  }

  /** The server's state: the bookmarks file, None while it does not exist. */
  class RestStore {
    var file: Option<seq<Bookmark>>

    function Contents(): seq<Bookmark>
      reads this
    {
      Load(file)
    }

    constructor ()
      ensures file == None && Contents() == []
    {
      file := None;
    }

    /** GET /bookmarks/:videoId */
    method List(videoId: string) returns (response: seq<Bookmark>)
      ensures response == ByVideo(Contents(), videoId)
      ensures forall b :: b in response <==> b in Contents() && b.videoId == videoId
    {
      var bookmarks := Load(file);
      response := ByVideo(bookmarks, videoId);
    }

    /** POST /bookmarks; `id` and `createdAt` are the clock readings the
        handler takes (`Date.now()` and the ISO time). */
    method Create(videoId: Option<string>, timestamp: Option<nat>, description: Option<string>, id: nat, createdAt: string)
      returns (response: Response)
      modifies this
      ensures !CreateRequestValid(videoId, timestamp) ==>
        response == BadRequest(RequiredFieldsMessage) && file == old(file)
      ensures CreateRequestValid(videoId, timestamp) ==>
        && response == Created(NewRecord(videoId.value, timestamp.value, description, id, createdAt))
        && file == Some(old(Contents()) + [response.record])
    {
      if videoId.None? || videoId.value == "" || timestamp.None? {
        return BadRequest(RequiredFieldsMessage);
      }
      var bookmarks := Load(file);
      var record := NewRecord(videoId.value, timestamp.value, description, id, createdAt);
      bookmarks := bookmarks + [record];
      file := Some(bookmarks);
      response := Created(record);
    }

    /** DELETE /bookmarks/:id; `id` is `parseInt` of the path segment. */
    method Delete(id: Option<int>) returns (response: Response)
      modifies this
      ensures FindIndex(old(Contents()), id).None? ==>
        response == NotFound(NotFoundMessage) && file == old(file)
      ensures FindIndex(old(Contents()), id).Some? ==>
        var index := FindIndex(old(Contents()), id).value;
        && response == Ok(old(Contents())[index])
        && file == Some(RemoveAt(old(Contents()), index))
    {
      var bookmarks := Load(file);
      var index := FindIndex(bookmarks, id);
      if index.None? {
        return NotFound(NotFoundMessage);
      }
      var removed := bookmarks[index.value];
      bookmarks := RemoveAt(bookmarks, index.value);
      file := Some(bookmarks);
      response := Ok(removed);
    }

    /** PUT /bookmarks/:id; `id` is `parseInt` of the path segment. */
    method Update(id: Option<int>, description: string) returns (response: Response)
      modifies this
      ensures FindIndex(old(Contents()), id).None? ==>
        response == NotFound(NotFoundMessage) && file == old(file)
      ensures FindIndex(old(Contents()), id).Some? ==>
        var index := FindIndex(old(Contents()), id).value;
        && file == Some(WithDescription(old(Contents()), index, description))
        && response == Ok(Contents()[index])
    {
      var bookmarks := Load(file);
      var index := FindIndex(bookmarks, id);
      if index.None? {
        return NotFound(NotFoundMessage);
      }
      bookmarks := WithDescription(bookmarks, index.value, description);
      file := Some(bookmarks);
      response := Ok(bookmarks[index.value]);
    }
  }

  /** Listing after a create shows the new record last among its video's
      records and leaves every other video's list as it was. */
  lemma CreateThenList(stored: seq<Bookmark>, record: Bookmark, videoId: string)
    ensures ByVideo(stored + [record], videoId) ==
      ByVideo(stored, videoId) + (if record.videoId == videoId then [record] else [])
  {
    FilterAppend(stored, [record], OnVideo(videoId));
    FilterSingleton(record, OnVideo(videoId));
  }

  /** A create with an id no stored record carries keeps the ids unique. */
  lemma CreateKeepsIdsUnique(stored: seq<Bookmark>, record: Bookmark)
    requires UniqueIds(stored)
    requires forall b :: b in stored ==> b.id != record.id
    ensures UniqueIds(stored + [record])
  {
    var s := stored + [record];
    forall i, j | 0 <= i < j < |s| ensures s[i].id != s[j].id {
      if j == |stored| {
        assert s[i] in stored;
      }
    }
  }

  /** With unique ids, a successful delete leaves no record with that id, so
      no later list shows it. */
  lemma DeleteRemovesId(stored: seq<Bookmark>, index: nat)
    requires UniqueIds(stored) && index < |stored|
    ensures forall b :: b in RemoveAt(stored, index) ==> b.id != stored[index].id
  {
    var r := RemoveAt(stored, index);
    forall b | b in r ensures b.id != stored[index].id {
      var m :| 0 <= m < |r| && r[m] == b;
      if m < index {
        assert b == stored[m];
      } else {
        assert b == stored[m + 1];
      }
    }
  }

  /** Ids taken from the clock can repeat; the handler then removes only the
      first record that carries the id and its twin stays listed. */
  lemma DeleteLeavesTwin(first: Bookmark, second: Bookmark)
    requires first.id == second.id
    ensures FindIndex([first, second], Some(first.id)) == Some(0)
    ensures RemoveAt([first, second], 0) == [second]
  {
  }

  /** An update keeps the collection's ids, so the record is found at the
      same place afterwards and the ids stay unique. */
  lemma UpdateKeepsIds(stored: seq<Bookmark>, index: nat, description: string, id: Option<int>)
    requires index < |stored|
    ensures FindIndex(WithDescription(stored, index, description), id) == FindIndex(stored, id)
    ensures UniqueIds(stored) ==> UniqueIds(WithDescription(stored, index, description))
  {
    var r := WithDescription(stored, index, description);
    assert forall k :: 0 <= k < |r| ==> r[k].id == stored[k].id;
    var a, b := FindIndex(r, id), FindIndex(stored, id);
    if a.Some? && b.Some? {
      assert !(a.value < b.value) && !(b.value < a.value);
    }
  }

  /** With unique ids, no record before or after `index` shares its id. */
  lemma OthersHaveOtherIds(stored: seq<Bookmark>, index: nat)
    requires UniqueIds(stored) && index < |stored|
    ensures forall b :: b in stored[..index] ==> !HasId(b, Some(stored[index].id))
    ensures forall b :: b in stored[index + 1..] ==> !HasId(b, Some(stored[index].id))
  {
    forall b | b in stored[..index] ensures !HasId(b, Some(stored[index].id)) {
      var m :| 0 <= m < index && stored[..index][m] == b;
    }
    forall b | b in stored[index + 1..] ensures !HasId(b, Some(stored[index].id)) {
      var m :| 0 <= m < |stored| - index - 1 && stored[index + 1..][m] == b;
      assert b == stored[index + 1 + m];
    }
  }

  /** Filtering out the id of the record at `index` of a collection with
      unique ids removes exactly that record. */
  lemma WithoutFoundId(stored: seq<Bookmark>, index: nat)
    requires UniqueIds(stored) && index < |stored|
    ensures WithoutId(stored, Some(stored[index].id)) == RemoveAt(stored, index)
  {
    var id := Some(stored[index].id);
    var before, found, after := stored[..index], stored[index], stored[index + 1..];
    assert WithoutId(before, id) == before && WithoutId(after, id) == after by {
      OthersHaveOtherIds(stored, index);
      WithoutAbsentId(before, id);
      WithoutAbsentId(after, id);
    }
    assert WithoutId([found], id) == [] by {
      FilterSingleton(found, OtherThanId(id));
    }
    assert stored == before + ([found] + after);
    calc {
      WithoutId(stored, id);
      { WithoutIdAppend(before, [found] + after, id); }
      WithoutId(before, id) + WithoutId([found] + after, id);
      { WithoutIdAppend([found], after, id); }
      WithoutId(before, id) + (WithoutId([found], id) + WithoutId(after, id));
      before + ([] + after);
      { assert [] + after == after; }
      RemoveAt(stored, index);
    }
  }

  /** On a collection with unique ids, the REST delete (splice of the first
      match, 404 when absent) and the extension's delete (filter out every
      match) leave the same collection. */
  lemma DeletesAgree(stored: seq<Bookmark>, id: int)
    requires UniqueIds(stored)
    ensures FindIndex(stored, Some(id)).None? ==> WithoutId(stored, Some(id)) == stored
    ensures FindIndex(stored, Some(id)).Some? ==>
      WithoutId(stored, Some(id)) == RemoveAt(stored, FindIndex(stored, Some(id)).value)
  {
    var index := FindIndex(stored, Some(id));
    if index.None? {
      WithoutAbsentId(stored, Some(id));
    } else {
      WithoutFoundId(stored, index.value);
    }
  }
}
