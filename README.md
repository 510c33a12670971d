# YouTube bookmark collections, modelled in Dafny

The system saves moments of YouTube videos as bookmarks. A bookmark record has:

- an id, taken from the creation clock;
- a video id;
- a timestamp, in seconds (whole seconds in this model);
- a description;
- a creation time;
- in the browser extension only, a cached video title.

The same collection contract exists in two places:

- **The REST store** (`backend/index.js`). The GET handler loads the array and filters it. The POST, DELETE and PUT handlers load it, change it and write it back; their 400 and 404 answers write nothing. Create validates and appends. List filters by video. Delete splices out the *first* record with the id, or answers 404. Update overwrites the description of the *first* match, or answers 404. The video page (`backend/videoBookmarks.js`) is its client. It lists the page video's bookmarks sorted by timestamp. It is meant to post new bookmarks at the player's current whole second, but as written adding a bookmark always throws before the POST (see "## Findings").
- **The extension store** (`frontend/popup.js`, `frontend/bookmarks.js`). This is `chrome.storage.local`, with a `bookmarks` array and a `videoTitles` cache.
  - The popup lists the current video's bookmarks sorted by timestamp.
  - The popup saves a bookmark only after checking the tab URL, the video id and the player's answer.
  - Delete removes *every* record with the id, silently.
  - The all-bookmarks page groups the records by video. It sorts each group, titles each group, and builds "jump to" URLs.

Module layout:

| file | module | what it holds |
|---|---|---|
| `bookmark_model.dfy` | `BookmarkModel` | The record. `Filter`, an order-preserving filter, and the two selections built on it: by video and without an id. |
| `timestamp_order.dfy` | `TimestampOrder` | The stable sort by timestamp (`Array.prototype.sort` is stable). It is proved sorted, a permutation and stable. An in-place insertion sort on an `array` is proved equal to it. |
| `time_format.dfy` | `TimeFormat` | Decimal rendering, `padStart(2, '0')`, the `MM:SS` and `M:SS` labels, and a clock parser that both labels round-trip through. |
| `rest_server.dfy` | `RestServer` | Class `RestStore`: the persisted file as a field, and the four handlers as methods. |
| `extension_storage.dfy` | `ExtensionStorage` | Class `LocalStorage`: the two storage keys as fields. |
| `popup.dfy` | `Popup` | Load, save, delete and the add-button guards. |
| `all_bookmarks.dfy` | `AllBookmarks` | Grouping by video, per-group sorting and titles, cards, the jump URL, delete. |
| `video_page.dfy` | `VideoPage` | The floored timestamp, sorting and rendering the fetched list, posting a bookmark as intended, and the `player` binding that makes the add throw as written. |

Modelling choices:

- **Clock values are parameters.** `Date.now()` ids and ISO creation times are passed in.
- **Parsed ids are `Option<int>`.** A `parseInt` result of NaN is `None`, and `None` matches no record.
- **The REST file can be absent.** `RestStore.file` is `None` while the JSON file does not exist, and such a file reads as empty.
- **Storage defaults are the empty values.** `LocalStorage` fields hold the values read with the defaults `[]` and `{}`.
- **Ids are not assumed unique.** Ids come from a millisecond clock and can collide, so the model does not assume uniqueness. `DeleteLeavesTwin` shows that with a duplicate id the REST delete leaves the twin in place. The lemmas that compare the two delete semantics require unique ids.

## Model

| member | source | states |
|---|---|---|
| BookmarkModel.Filter | backend/index.js:43 | The result is no longer than the input, and it holds exactly the input elements that the predicate accepts. |
| BookmarkModel.FilterAppend | backend/index.js:43 | Filtering distributes over concatenation, so kept elements stay in their original relative order. |
| BookmarkModel.FilterKeepsAll | frontend/popup.js:171 | A filter that accepts every element returns its input unchanged. |
| BookmarkModel.ByVideo | backend/index.js:43 | The selection holds exactly the stored records whose video id equals the argument. |
| BookmarkModel.ByVideoOfAbsent | frontend/bookmarks.js:44-45 | A video id that occurs in no record selects the empty sequence. |
| BookmarkModel.WithoutId | frontend/popup.js:171 | The result holds exactly the records whose id differs from the parsed id. |
| BookmarkModel.WithoutAbsentId | frontend/popup.js:170-173 | Deleting an id that no record carries leaves the list unchanged. It is no error. |
| BookmarkModel.WithoutIdAppend | frontend/bookmarks.js:159 | Deleting by id distributes over concatenation, so the survivors keep their order. |
| BookmarkModel.ShownDescription | frontend/popup.js:232 | The shown description is never empty. It is the description when there is one, else "No description". |
| TimestampOrder.InsertByTime | frontend/popup.js:206 | One insertion step of the stable comparator sort; its result is one longer than the sorted prefix. Its ordering, membership and stability are stated in InsertSorted, InsertPermutes and InsertStable. |
| TimestampOrder.SortByTime | frontend/popup.js:206 | The stable sort by `a.timestamp - b.timestamp`; it keeps the length. Its full contract is in SortByTimeSpec (sorted, a permutation and stable). |
| TimestampOrder.SortSorted | frontend/popup.js:206 | The sort's output is in non-decreasing timestamp order. |
| TimestampOrder.SortPermutes | frontend/popup.js:206 | The sort's output is a permutation of its input (equal multisets). |
| TimestampOrder.SortStable | frontend/popup.js:206 | For every timestamp, the records at that timestamp keep their input order. |
| TimestampOrder.SortByTimeSpec | frontend/popup.js:204-206 | The sort is sorted, a permutation and stable, all at once. |
| TimestampOrder.SortedFirstIsEarliest | frontend/bookmarks.js:62-65 | The first record of a sorted non-empty group is one of its records and has the least timestamp. |
| TimestampOrder.InsertInPlace | backend/videoBookmarks.js:20 | Shifting larger entries right inserts `a[i]` into the sorted prefix exactly as the stable insertion does. Entries after `i` are untouched. |
| TimestampOrder.SortByTimestamp | backend/videoBookmarks.js:19-20 | Sorting the array in place leaves it equal to the stable sort of its old contents. |
| TimeFormat.Decimal | frontend/popup.js:15 | `toString` of a whole number; never empty. Its digits and value are stated in DecimalSpec. |
| TimeFormat.PadStart2 | frontend/popup.js:15 | `padStart(2, '0')`: the result has length two, or the input's length when that is longer. What it prepends is stated in PadStart2Spec. |
| TimeFormat.FormatTimestamp | frontend/popup.js:12-16 | The `MM:SS` label, at least five characters long. Its fields are stated in FormatTimestampFields and its round trip in FormatTimestampRoundTrip; `frontend/bookmarks.js:12-16` is the same function. |
| TimeFormat.FormatTime | backend/videoBookmarks.js:34-38 | The `M:SS` label, at least four characters long. Its fields are stated in FormatTimeFields and its round trip in FormatTimeRoundTrip. |
| TimeFormat.DecimalSpec | frontend/popup.js:15 | `toString` of a whole number gives a non-empty digit string of the number's value. It has one digit exactly below ten and no leading zero except for "0". |
| TimeFormat.PadStart2Spec | frontend/popup.js:15 | Padding only prepends zeros, up to length two, and never truncates: the input is the tail of the result. |
| TimeFormat.PadKeepsValue | frontend/popup.js:15 | Zero-padding keeps the digits' value. |
| TimeFormat.SecondsFieldWidth | frontend/popup.js:14-15 | The seconds of a minute pad to exactly two characters. |
| TimeFormat.FormatTimestampFields | frontend/popup.js:12-16 | The label is `MM:SS`. The minutes field has at least two digits and value `s div 60`, and is never truncated. The seconds field has exactly two digits and value `s mod 60`. |
| TimeFormat.FormatTimestampRoundTrip | frontend/bookmarks.js:12-16 | Parsing the `MM:SS` label gives back the seconds it was made from. |
| TimeFormat.FormatTimeFields | backend/videoBookmarks.js:34-38 | The label is `M:SS`. Minutes have value `s div 60` and are unpadded (no leading zero unless they are 0). Seconds are two digits with value `s mod 60`. |
| TimeFormat.FormatTimeRoundTrip | backend/videoBookmarks.js:34-38 | Parsing the `M:SS` label gives back the seconds it was made from. |
| TimeFormat.FormatsDifferInMinutePadding | backend/videoBookmarks.js:35-37 | The `MM:SS` label is the `M:SS` label with a leading "0" when minutes are below ten, and is identical otherwise. |
| RestServer.CreateRequestValid | backend/index.js:54 | The negation of the POST guard: a video id that is present and non-empty, and a timestamp that is present. What each outcome does is stated in RestServer.RestStore.Create. |
| RestServer.Load | backend/index.js:14-25 | A missing file reads as the empty collection. A present file reads as its array. |
| RestServer.NewRecord | backend/index.js:59-65 | The created record carries the given id, video id, timestamp and creation time. An absent description becomes "", and the record has no title. |
| RestServer.FindIndex | backend/index.js:80-84 | It returns None exactly when no record has the id. Otherwise it returns the position of the first record with the id. |
| RestServer.RemoveAt | backend/index.js:86 | The splice removes one element: length drops by one, the rest keep their order, and the multiset loses exactly the removed record. |
| RestServer.WithDescription | backend/index.js:100-106 | Only the description of the found record changes. Every other field and every other record stays the same. |
| RestServer.RestStore.constructor | backend/index.js:19-22 | Before any save the file is absent and the store reads as empty. |
| RestServer.RestStore.List | backend/index.js:39-48 | It answers exactly the stored records of the video, in stored order, and changes nothing. |
| RestServer.RestStore.Create | backend/index.js:51-73 | An absent or empty video id, or an absent timestamp, gives 400 and leaves the file untouched. Otherwise it gives 201 with the new record, and the file becomes the old collection with that record appended. |
| RestServer.RestStore.Delete | backend/index.js:76-92 | An id with no match gives 404 and leaves the file untouched. Otherwise it answers the first matching record and stores the collection with just that record spliced out. |
| RestServer.RestStore.Update | backend/index.js:95-112 | An id with no match gives 404 and leaves the file untouched. Otherwise it sets the description of the first match only, and answers the updated record. |
| RestServer.CreateThenList | backend/index.js:43-67 | After an append, listing a video gives the earlier listing, followed by the new record if the record is on that video. |
| RestServer.CreateKeepsIdsUnique | backend/index.js:59-67 | Appending a record with a fresh id keeps the ids unique. |
| RestServer.DeleteRemovesId | backend/index.js:80-86 | With unique ids, no record left after the splice has the deleted id. |
| RestServer.DeleteLeavesTwin | backend/index.js:80-86 | With two records sharing an id, the splice finds the first one and leaves the second. |
| RestServer.UpdateKeepsIds | backend/index.js:100-106 | Updating a description changes no lookup by id and keeps ids unique. |
| RestServer.WithoutFoundId | backend/index.js:80-86 | With unique ids, filtering out the id of the record at a position is the same as splicing that position out. |
| RestServer.DeletesAgree | backend/index.js:80-86 | With unique ids, the extension's delete-all filter agrees with the REST splice. The filter leaves the collection as it is when no record matches, and equals the splice at the found position otherwise. |
| ExtensionStorage.LocalStorage.constructor | frontend/popup.js:122 | A fresh storage area reads as no bookmarks and no cached titles. |
| Popup.Contains | frontend/popup.js:189 | `includes`: a match needs the URL to be at least as long as the pattern. Both directions of its meaning are stated in ContainsIff; `frontend/popup.js:290` uses the same test. |
| Popup.ContainsIff | frontend/popup.js:189 | `includes` holds exactly when the pattern occurs at some position of the URL. |
| Popup.CurrentVideo | frontend/popup.js:189-198 | There is a current video exactly when the URL contains "youtube.com/watch" and a non-empty video id was extracted. The current video is that id. |
| Popup.CachedTitle | frontend/popup.js:130 | The title is the cached one when it is present and non-empty, and null otherwise. |
| Popup.EntryText | frontend/popup.js:232 | An entry is the `MM:SS` clock, which parses back to the timestamp, then " - ", then the shown description. |
| Popup.LoadBookmarks | frontend/popup.js:185-206 | It lists nothing off a watch page or without a video id. Otherwise it lists the video's records sorted by timestamp, as a permutation of the video's records, with ties in stored order. |
| Popup.SaveBookmark | frontend/popup.js:115-145 | It appends exactly one record: the input's video id, timestamp and description, the given id and time, and the cached title. The title cache is unchanged. |
| Popup.DeleteBookmark | frontend/popup.js:164-182 | The stored list becomes the old list without every record of the parsed id. The title cache is unchanged. |
| Popup.AddBookmarkClick | frontend/popup.js:285-316 | It checks the URL, then the video id, then the timestamp, and each failure raises its own message. It saves exactly one record when all three checks pass, and nothing otherwise. |
| AllBookmarks.Groups | frontend/bookmarks.js:41-50 | The grouping the page builds: its keys are exactly the video ids present. Its contents are stated in GroupsSnoc, GroupOfEachBookmark and GroupSizesSum, and GroupBookmarksByVideo is proved to compute it. |
| AllBookmarks.GroupsSnoc | frontend/bookmarks.js:43-48 | One more bookmark extends only its own video's group, at the end. |
| AllBookmarks.GroupsStep | frontend/bookmarks.js:44-47 | An unseen video opens a group holding only that bookmark. A seen video's group gets the bookmark appended. |
| AllBookmarks.GroupBookmarksByVideo | frontend/bookmarks.js:41-50 | The dictionary built record by record equals the grouping: one key per video, each holding that video's records in stored order. |
| AllBookmarks.GroupsNonEmpty | frontend/bookmarks.js:43-48 | The keys are exactly the video ids present, and no group is empty. |
| AllBookmarks.GroupOfEachBookmark | frontend/bookmarks.js:41-50 | Every bookmark is in the group of its own video and in no other group. |
| AllBookmarks.GroupSizesSum | frontend/bookmarks.js:43-48 | The group sizes add up to the number of bookmarks. |
| AllBookmarks.FetchVideoTitle | frontend/bookmarks.js:101-113 | It gives the cached title when that is non-empty, and otherwise "Video: " followed by the id. It is never empty. |
| AllBookmarks.GroupTitle | frontend/bookmarks.js:65-70 | It gives the first record's non-empty saved title, and otherwise the fetched title. It is never empty. |
| AllBookmarks.CardOf | frontend/bookmarks.js:74-89 | The card of one bookmark: its delete button carries the id, its jump button the timestamp, and the description is never empty. The clock is stated in CardShowsBookmark. |
| AllBookmarks.CardShowsBookmark | frontend/bookmarks.js:74-89 | A card's clock parses back to the timestamp, and it shows the non-empty description. Its delete button carries the record's id, and its jump button carries the timestamp. |
| AllBookmarks.DisplayGroup | frontend/bookmarks.js:62-89 | The group array is sorted in place: it becomes the stable sort of its old contents, sorted and a permutation. The title is taken from the sorted group. There is one card per record, in sorted order. |
| AllBookmarks.JumpUrl | frontend/bookmarks.js:150-151 | The URL is the watch prefix, the video id, "&t=", and then the canonical decimal of the timestamp: digits whose value is the timestamp, with no leading zero except for "0". |
| AllBookmarks.DeleteBookmark | frontend/bookmarks.js:156-169 | The stored list becomes the old list without every record of the id. The title cache is unchanged. |
| VideoPage.ItemOf | backend/videoBookmarks.js:22-28 | The list item of one bookmark: its button seeks to the timestamp and the description is never empty. The clock is stated in ItemShowsBookmark. |
| VideoPage.ItemShowsBookmark | backend/videoBookmarks.js:22-28 | An item's clock parses back to the timestamp, and its "Jump to" target is the timestamp. It shows the non-empty description. |
| VideoPage.RenderItems | backend/videoBookmarks.js:21-30 | There is one item per array entry, in array order. |
| VideoPage.DisplayBookmarks | backend/videoBookmarks.js:17-31 | The fetched array is sorted in place: it becomes the stable sort of its old contents, sorted and a permutation. The items follow the sorted order. |
| VideoPage.FetchBookmarks | backend/videoBookmarks.js:6-14 | The shown items are those of the page video's stored records, sorted by timestamp. |
| VideoPage.PostedTimestamp | backend/videoBookmarks.js:50 | The posted timestamp is the whole second the player is in: `t <= currentTime < t + 1`. |
| VideoPage.AddBookmark | backend/videoBookmarks.js:49-72 | The intended add, with `player` bound to the YouTube player. The list refreshes exactly when the page has a video id. In that case the store gains exactly the new record, and the refreshed list is the page video's stored records sorted by timestamp, one item each, which includes the new record's item. Otherwise the store is untouched. |
| VideoPage.BindingAfterApiReady | backend/videoBookmarks.js:75-84 | Assigning the new YouTube player to a `const` binding leaves the binding as it was; a mutable binding takes the new player. |
| VideoPage.CurrentTime | backend/videoBookmarks.js:50 | `getCurrentTime` answers exactly when the binding is a YouTube player; on the placeholder element it throws. |
| VideoPage.AddBookmarkAsWritten | backend/videoBookmarks.js:49-72 | The add on whatever `player` holds: it throws, leaving the store untouched, exactly when the binding has no current time. Otherwise it is the intended add at the player's floored time: a refused POST leaves the store untouched; an accepted one appends exactly the new record and returns the page video's stored records sorted by timestamp, one item each. |
| VideoPage.ConstPlayerNeverPosts | backend/videoBookmarks.js:1 | With `player` declared `const`, the binding stays the placeholder element after the API is ready, so reading the current time throws; with a mutable binding it is the new player's time. |
| VideoPage.AddedBookmarkListed | backend/videoBookmarks.js:66-67 | A record just appended is among its video's sorted bookmarks. |

## Left out

- The Express wiring, CORS, the error middleware, `app.listen` and the 500 answer on an I/O failure. These are framework plumbing; the handlers' own logic is modelled.
- File I/O and JSON (de)serialisation. The persisted file is the `RestStore.file` field; a read error other than a missing file is not modelled.
- Chrome storage and messaging wrappers, `waitForContentScript` and its retries with delays, and the `bookmarkUpdated` notification. These are foreign asynchronous APIs. Their failures, which end an operation with an error banner, are not modelled.
- The DOM rendering, event listeners, toasts, error banners, the spinner and the "No bookmarks yet" messages. The rendered content is modelled as values (`EntryText`, `CardOf`, `ItemOf`).
- The content script of the extension is not part of this model. The popup's timestamp request becomes the `timestampReply` parameter.
- `extractVideoId`, `getCurrentTab`, `prompt`, `fetch`, the YouTube IFrame player and `seekTo`. Their results are parameters: the extracted id, the URL, the description, the player's current time.
- `Date.now()` and `new Date().toISOString()`. These are parameters `id` and `createdAt`.
- `handleBookmarkClick` and the "View all" link of the popup. These only forward to the player or open a tab.
- Floating-point timestamps and `parseFloat`. Timestamps are whole seconds (`nat`). `Math.floor(seconds % 60)` in the labels and `Math.floor(timestamp)` in the jump URL are therefore the identity. `Math.floor(seconds / 60)` in the labels is the integer division the model writes as `seconds / 60`. `PostedTimestamp` keeps a real floor.
- Lost updates between concurrent read-modify-write cycles on either store.
- The order in which `Object.entries` walks the groups. The groups are a `map`, which has no order.
- RestServer.RestStore.Create: the body fields are typed (`Option<string>`, `Option<nat>`). The source only tests `timestamp == null`, so it stores any other value as given: negative or fractional numbers, strings, objects. The model's `nat` excludes all of these, and a truthy video id that is not a string is not modelled either.
- RestServer.RestStore.Update: the new description is a string. A PUT body without `description`, which stores `undefined`, is not modelled.
- VideoPage.PostedTimestamp: requires `currentTime >= 0.0`, because the player never reports a negative time. VideoPage.AddBookmark and VideoPage.AddBookmarkAsWritten carry the same precondition on the player's time, for the same reason.
- VideoPage.FetchBookmarks: a page without a `v` parameter requests `/bookmarks/`, which no route matches. The model lists the records with the empty video id instead.
- VideoPage.FetchBookmarks: the video id goes into the request path without URL encoding. An id containing '/', '?' or '#' reaches another route or drops its tail; the model treats the id as an opaque key, so its listing, and AddBookmark's refreshed list, hold only for ids without those characters.
- VideoPage.AddBookmark: the model of the intended add assumes the page's `player` is the YouTube player. As written it never is, and the add throws; `AddBookmarkAsWritten` models that.
- AllBookmarks.GroupBookmarksByVideo: `groups` is a plain object, so a video id naming an `Object.prototype` member (`constructor`, `toString`, `__proto__`, ...) finds the inherited value; `push` then throws and the page shows nothing. The model's `map` has no inherited keys and groups such a record normally.
- Popup.CachedTitle: `videoTitles` is a plain object, so a video id naming an `Object.prototype` member yields the inherited function, which is stored as the title. The model gives None there.
- AllBookmarks.FetchVideoTitle: for the same ids the inherited function is returned as the title, where the model gives the "Video: " placeholder.
- AllBookmarks.DisplayGroup: the loop over all sections and its `await` are not modelled. The model covers one section.

## Findings

| source | as written | input that shows it | evidently intended | confidence | as-written member | corrected member |
|---|---|---|---|---|---|---|
| backend/videoBookmarks.js:1 | `player` is declared `const`, so `player = new YT.Player(...)` at line 76 throws a TypeError and `player` stays the placeholder element. `addBookmark` then calls `player.getCurrentTime()` at line 50, outside its `try`, which throws: no prompt, no POST, no refresh. | Any click on "add", on any page, with any description. | `player` is a mutable binding that takes the YouTube player, and an add posts the player's whole second. | not executed; high | VideoPage.AddBookmarkAsWritten, VideoPage.ConstPlayerNeverPosts | VideoPage.AddBookmark |
